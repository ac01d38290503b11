/** What the loan handlers and the fine rule promise, stated over their table functions. */
module LoanProperties {
  import opened Wrappers
  import opened Dates
  import opened Models
  import opened Schemas
  import opened Errors
  import opened Database
  import opened LoanRoutes

  // ---------------------------------------------------------------------
  // The late fine
  // ---------------------------------------------------------------------

  /** A late return costs 0.50 per day late; an on-time one keeps the stored fine. */
  lemma LateFineRule(due: Date, returned: Date, current: Cents)
    ensures due < returned ==> LateFine(due, returned, current) == 50 * (returned - due) > 0
    ensures returned <= due ==> LateFine(due, returned, current) == current
  {
  }

  /** Starting from no fine, a fine is charged exactly when the return is late. */
  lemma FineOnlyWhenLate(due: Date, returned: Date)
    ensures LateFine(due, returned, 0) != 0 <==> due < returned
    ensures LateFine(due, returned, 0) >= 0
  {
  }

  /** Due 2024-01-01, returned 2024-01-11: ten days late, a fine of 5.00. */
  lemma TenDaysLateExample()
    ensures Ordinal(2024, 1, 11) - Ordinal(2024, 1, 1) == 10
    ensures LateFine(Ordinal(2024, 1, 1), Ordinal(2024, 1, 11), 0) == 500
  {
  }

  /** Across the leap day: due 2024-02-28, returned 2024-03-01 is two days late, a fine of 1.00. */
  lemma LeapDayExample()
    ensures Ordinal(2024, 3, 1) - Ordinal(2024, 2, 28) == 2
    ensures LateFine(Ordinal(2024, 2, 28), Ordinal(2024, 3, 1), 0) == 100
    ensures Ordinal(2023, 3, 1) - Ordinal(2023, 2, 28) == 1
  {
  }

  // ---------------------------------------------------------------------
  // Opening a loan
  // ---------------------------------------------------------------------

  /** The four checks, in order; the first that fails decides the error. */
  lemma CreateLoanCheckOrder(t: Tables, req: LoanCreate, today: Date)
    ensures CreateLoanSpec(t, req, today) == Err(BookNotFound)
            <==> req.bookId !in t.books
    ensures CreateLoanSpec(t, req, today) == Err(BookUnavailable)
            <==> req.bookId in t.books && t.books[req.bookId].availableCopies <= 0
    ensures CreateLoanSpec(t, req, today) == Err(MemberNotFound)
            <==> req.bookId in t.books && t.books[req.bookId].availableCopies > 0
                 && req.memberId !in t.members
    ensures (CreateLoanSpec(t, req, today).Err? && CreateLoanSpec(t, req, today).error.MemberIneligible?)
            <==> req.bookId in t.books && t.books[req.bookId].availableCopies > 0
                 && req.memberId in t.members && t.members[req.memberId].membershipStatus != Active
    ensures CreateLoanSpec(t, req, today).Ok?
            <==> req.bookId in t.books && t.books[req.bookId].availableCopies > 0
                 && req.memberId in t.members && t.members[req.memberId].membershipStatus == Active
    ensures req.memberId in t.members && CreateLoanSpec(t, req, today).Err?
            && CreateLoanSpec(t, req, today).error.MemberIneligible?
            ==> CreateLoanSpec(t, req, today).error.status == t.members[req.memberId].membershipStatus
  {
  }

  /** A new loan, borrowed today with no fine, is added under a fresh id; no other loan changes. */
  lemma CreateLoanAddsBorrowedLoan(t: Tables, req: LoanCreate, today: Date)
    requires CreateLoanSpec(t, req, today).Ok?
    ensures var c := CreateLoanSpec(t, req, today).value;
            var (id, loan) := c.value;
            && loan == Loan(req.bookId, req.memberId, today, req.dueDate, None, Borrowed, 0)
            && c.tables.loans.Keys == t.loans.Keys + {id}
            && c.tables.loans[id] == loan
            && (WellFormed(t) ==> id !in t.loans)
            && (forall k :: k in t.loans && k != id ==> c.tables.loans[k] == t.loans[k])
            && c.tables.members == t.members
  {
  }

  /** Exactly one copy of the requested book is taken, and availability stays non-negative. */
  lemma CreateLoanTakesOneCopy(t: Tables, req: LoanCreate, today: Date)
    requires CreateLoanSpec(t, req, today).Ok?
    ensures var after := CreateLoanSpec(t, req, today).value.tables;
            && after.books.Keys == t.books.Keys
            && after.books[req.bookId].availableCopies == t.books[req.bookId].availableCopies - 1
            && after.books[req.bookId].availableCopies >= 0
            && after.books[req.bookId] == t.books[req.bookId].(availableCopies := after.books[req.bookId].availableCopies)
            && (forall b :: b in t.books && b != req.bookId ==> after.books[b] == t.books[b])
  {
  }

  // ---------------------------------------------------------------------
  // The dedicated return operation
  // ---------------------------------------------------------------------

  /** A missing loan is not found; a loan already returned is refused. */
  lemma ReturnBookErrors(t: Tables, loanId: LoanId, today: Date)
    ensures ReturnBookSpec(t, loanId, today) == Err(LoanNotFound) <==> loanId !in t.loans
    ensures ReturnBookSpec(t, loanId, today) == Err(AlreadyReturned)
            <==> loanId in t.loans && t.loans[loanId].status == Returned
    ensures ReturnBookSpec(t, loanId, today).Ok?
            <==> loanId in t.loans && t.loans[loanId].status in {Borrowed, Overdue}
  {
  }

  /** A return dates the loan today, marks it returned, charges the late fine and gives one copy back. */
  lemma ReturnBookCloses(t: Tables, loanId: LoanId, today: Date)
    requires ReturnBookSpec(t, loanId, today).Ok?
    ensures var c := ReturnBookSpec(t, loanId, today).value;
            var stored := t.loans[loanId];
            && c.value == c.tables.loans[loanId]
            && c.value.returnDate == Some(today)
            && c.value.status == Returned
            && (stored.dueDate < today ==> c.value.fineAmount == (today - stored.dueDate) * 50)
            && (today <= stored.dueDate ==> c.value.fineAmount == stored.fineAmount)
            && c.value.bookId == stored.bookId && c.value.memberId == stored.memberId
            && c.value.loanDate == stored.loanDate && c.value.dueDate == stored.dueDate
            && c.tables.loans.Keys == t.loans.Keys
            && (forall k :: k in t.loans && k != loanId ==> c.tables.loans[k] == t.loans[k])
            && c.tables.books.Keys == t.books.Keys
            && (stored.bookId in t.books ==>
                  c.tables.books[stored.bookId].availableCopies == t.books[stored.bookId].availableCopies + 1)
            && (stored.bookId in t.books ==>
                  c.tables.books[stored.bookId]
                  == t.books[stored.bookId].(availableCopies := t.books[stored.bookId].availableCopies + 1))
            && (forall b :: b in t.books && b != stored.bookId ==> c.tables.books[b] == t.books[b])
            && c.tables.members == t.members
  {
  }

  /**
   * Returning twice: the second return is refused and commits nothing, so
   * the book gets exactly one copy back over both calls.
   */
  lemma NoDoubleReturn(t: Tables, loanId: LoanId, day1: Date, day2: Date)
    requires ReturnBookSpec(t, loanId, day1).Ok?
    ensures var mid := ReturnBookSpec(t, loanId, day1).value.tables;
            ReturnBookSpec(mid, loanId, day2) == Err(AlreadyReturned)
    ensures var mid := ReturnBookSpec(t, loanId, day1).value.tables;
            var b := t.loans[loanId].bookId;
            b in t.books ==> mid.books[b].availableCopies == t.books[b].availableCopies + 1
  {
  }

  // ---------------------------------------------------------------------
  // The generic update
  // ---------------------------------------------------------------------

  /** A missing loan is not found; any other update is accepted. */
  lemma UpdateLoanErrors(t: Tables, loanId: LoanId, p: LoanUpdate, today: Date)
    ensures UpdateLoanSpec(t, loanId, p, today).Err? <==> loanId !in t.loans
    ensures UpdateLoanSpec(t, loanId, p, today).Err? ==> UpdateLoanSpec(t, loanId, p, today).error == LoanNotFound
  {
  }

  /**
   * A copy comes back exactly when the payload asks for `returned` and the
   * stored loan is not returned yet; no other book changes.
   */
  lemma UpdateLoanReleasesOnlyWhenClosing(t: Tables, loanId: LoanId, p: LoanUpdate, today: Date)
    requires loanId in t.loans
    ensures var after := UpdateLoanSpec(t, loanId, p, today).value.tables;
            var b := t.loans[loanId].bookId;
            && after.books.Keys == t.books.Keys
            && (b in t.books ==>
                  after.books[b].availableCopies
                  == t.books[b].availableCopies + (if p.status == Set(Returned) && t.loans[loanId].status != Returned then 1 else 0))
            && (b in t.books ==>
                  after.books[b]
                  == t.books[b].(availableCopies := t.books[b].availableCopies
                                   + (if p.status == Set(Returned) && t.loans[loanId].status != Returned then 1 else 0)))
            && (forall k :: k in t.books && k != b ==> after.books[k] == t.books[k])
            && after.members == t.members
  {
  }

  /**
   * The stored loan afterwards: every supplied field wins, including a
   * supplied fine over the computed one; when the update closes the loan the
   * return date defaults to today and the late fine is charged first.
   */
  lemma UpdateLoanFields(t: Tables, loanId: LoanId, p: LoanUpdate, today: Date)
    requires loanId in t.loans
    ensures var c := UpdateLoanSpec(t, loanId, p, today).value;
            var stored := t.loans[loanId];
            var closing := p.status == Set(Returned) && stored.status != Returned;
            var rd := if p.returnDate.Set? && p.returnDate.value.Some? then p.returnDate.value.value else today;
            && c.value == c.tables.loans[loanId]
            && c.value.bookId == stored.bookId && c.value.memberId == stored.memberId
            && c.value.loanDate == stored.loanDate && c.value.dueDate == stored.dueDate
            && c.value.status == (if p.status.Set? then p.status.value else stored.status)
            && c.value.returnDate == (if p.returnDate.Set? then p.returnDate.value
                                      else if closing then Some(rd) else stored.returnDate)
            && c.value.fineAmount == (if p.fineAmount.Set? then p.fineAmount.value
                                      else if closing && stored.dueDate < rd then (rd - stored.dueDate) * 50
                                      else stored.fineAmount)
            && c.tables.loans.Keys == t.loans.Keys
            && (forall k :: k in t.loans && k != loanId ==> c.tables.loans[k] == t.loans[k])
  {
  }

  // ---------------------------------------------------------------------
  // Deleting a loan
  // ---------------------------------------------------------------------

  /**
   * A missing loan is not found; otherwise the loan is removed, and its copy
   * comes back only when the loan was still `borrowed`.
   */
  lemma DeleteLoanReconciles(t: Tables, loanId: LoanId)
    ensures DeleteLoanSpec(t, loanId) == Err(LoanNotFound) <==> loanId !in t.loans
    ensures loanId in t.loans ==>
            var after := DeleteLoanSpec(t, loanId).value.tables;
            var loan := t.loans[loanId];
            && after.loans.Keys == t.loans.Keys - {loanId}
            && (forall k :: k in after.loans ==> after.loans[k] == t.loans[k])
            && after.books.Keys == t.books.Keys
            && (loan.bookId in t.books ==>
                  after.books[loan.bookId].availableCopies
                  == t.books[loan.bookId].availableCopies + (if loan.status == Borrowed then 1 else 0))
            && (loan.bookId in t.books ==>
                  after.books[loan.bookId]
                  == t.books[loan.bookId].(availableCopies := t.books[loan.bookId].availableCopies
                                             + (if loan.status == Borrowed then 1 else 0)))
            && (forall b :: b in t.books && b != loan.bookId ==> after.books[b] == t.books[b])
            && after.members == t.members
  {
  }
}
