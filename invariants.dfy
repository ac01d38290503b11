/**
 * Every handler keeps the tables well formed: ids stay below their
 * auto-increment counters and loans refer only to ids that were handed out.
 */
module Invariants {
  import opened Dates
  import opened Models
  import opened Schemas
  import opened Database
  import opened LoanRoutes
  import opened BookRoutes
  import opened MemberRoutes

  lemma LoanHandlersKeepWellFormed(t: Tables, req: LoanCreate, loanId: LoanId, p: LoanUpdate, today: Date)
    requires WellFormed(t)
    ensures CreateLoanSpec(t, req, today).Ok? ==> WellFormed(CreateLoanSpec(t, req, today).value.tables)
    ensures UpdateLoanSpec(t, loanId, p, today).Ok? ==> WellFormed(UpdateLoanSpec(t, loanId, p, today).value.tables)
    ensures DeleteLoanSpec(t, loanId).Ok? ==> WellFormed(DeleteLoanSpec(t, loanId).value.tables)
    ensures ReturnBookSpec(t, loanId, today).Ok? ==> WellFormed(ReturnBookSpec(t, loanId, today).value.tables)
  {
  }

  lemma BookHandlersKeepWellFormed(t: Tables, c: BookCreate, bookId: BookId, p: BookUpdate)
    requires WellFormed(t)
    ensures CreateBookSpec(t, c).Ok? ==> WellFormed(CreateBookSpec(t, c).value.tables)
    ensures UpdateBookSpec(t, bookId, p).Ok? ==> WellFormed(UpdateBookSpec(t, bookId, p).value.tables)
    ensures DeleteBookSpec(t, bookId).Ok? ==> WellFormed(DeleteBookSpec(t, bookId).value.tables)
  {
  }

  lemma MemberHandlersKeepWellFormed(t: Tables, c: MemberCreate, memberId: MemberId, p: MemberUpdate, today: Date)
    requires WellFormed(t)
    ensures CreateMemberSpec(t, c, today).Ok? ==> WellFormed(CreateMemberSpec(t, c, today).value.tables)
    ensures UpdateMemberSpec(t, memberId, p).Ok? ==> WellFormed(UpdateMemberSpec(t, memberId, p).value.tables)
    ensures DeleteMemberSpec(t, memberId).Ok? ==> WellFormed(DeleteMemberSpec(t, memberId).value.tables)
  {
  }
}
