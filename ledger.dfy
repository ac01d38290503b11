/**
 * The availability ledger: a book's available copies equal its total copies
 * minus the loans of it that are still out (not returned).  Opening, the
 * dedicated return, deleting a borrowed or returned loan, and every book and
 * member handler that leaves the copy counts alone keep it; the generic
 * update re-opening a returned loan, and deleting an overdue loan, break it.
 */
module Ledger {
  import opened Wrappers
  import opened Dates
  import opened Models
  import opened Schemas
  import opened Database
  import opened LoanRoutes
  import opened BookRoutes
  import opened MemberRoutes

  /** The loans of book `b` that have not been returned. */
  ghost function OnLoan(t: Tables, b: BookId): set<LoanId> {
    set id | id in t.loans && t.loans[id].bookId == b && t.loans[id].status != Returned
  }

  /** Every book's available copies account for exactly the copies out on loan. */
  ghost predicate Balanced(t: Tables) {
    forall b :: b in t.books ==> t.books[b].availableCopies == t.books[b].totalCopies - |OnLoan(t, b)|
  }

  /** Whether the generic update would mark a returned loan as out again. */
  predicate Reopens(loan: Loan, p: LoanUpdate) {
    loan.status == Returned && p.status.Set? && p.status.value != Returned
  }

  /** The empty library the store starts as is balanced. */
  lemma EmptyStoreBalanced(authorIds: set<AuthorId>)
    ensures Balanced(Tables(map[], map[], map[], authorIds, 1, 1, 1))
    ensures WellFormed(Tables(map[], map[], map[], authorIds, 1, 1, 1))
  {
  }

  lemma CreateLoanKeepsBalance(t: Tables, req: LoanCreate, today: Date)
    requires WellFormed(t) && Balanced(t)
    requires CreateLoanSpec(t, req, today).Ok?
    ensures Balanced(CreateLoanSpec(t, req, today).value.tables)
  {
    var after := CreateLoanSpec(t, req, today).value.tables;
    var id := t.nextLoanId;
    forall b | b in after.books
      ensures after.books[b].availableCopies == after.books[b].totalCopies - |OnLoan(after, b)|
    {
      if b == req.bookId {
        assert OnLoan(after, b) == OnLoan(t, b) + {id};
        assert id !in OnLoan(t, b);
      } else {
        assert OnLoan(after, b) == OnLoan(t, b);
      }
    }
  }

  lemma ReturnBookKeepsBalance(t: Tables, loanId: LoanId, today: Date)
    requires Balanced(t)
    requires ReturnBookSpec(t, loanId, today).Ok?
    ensures Balanced(ReturnBookSpec(t, loanId, today).value.tables)
  {
    var after := ReturnBookSpec(t, loanId, today).value.tables;
    var bk := t.loans[loanId].bookId;
    forall b | b in after.books
      ensures after.books[b].availableCopies == after.books[b].totalCopies - |OnLoan(after, b)|
    {
      if b == bk {
        assert OnLoan(t, b) == OnLoan(after, b) + {loanId};
      } else {
        assert OnLoan(after, b) == OnLoan(t, b);
      }
    }
  }

  /** The generic update keeps the ledger unless it re-opens a returned loan. */
  lemma UpdateLoanKeepsBalance(t: Tables, loanId: LoanId, p: LoanUpdate, today: Date)
    requires Balanced(t)
    requires loanId in t.loans && !Reopens(t.loans[loanId], p)
    ensures Balanced(UpdateLoanSpec(t, loanId, p, today).value.tables)
  {
    var after := UpdateLoanSpec(t, loanId, p, today).value.tables;
    var bk := t.loans[loanId].bookId;
    var closing := UpdateCloses(t.loans[loanId], p);
    assert after.loans[loanId].bookId == bk;
    assert closing ==> after.loans[loanId].status == Returned;
    assert !closing ==> (after.loans[loanId].status == Returned <==> t.loans[loanId].status == Returned);
    forall b | b in after.books
      ensures after.books[b].availableCopies == after.books[b].totalCopies - |OnLoan(after, b)|
    {
      if b == bk && closing {
        assert OnLoan(t, b) == OnLoan(after, b) + {loanId};
      } else {
        assert OnLoan(after, b) == OnLoan(t, b);
      }
    }
  }

  /** Dropping one loan drops it, and nothing else, from every book's loans still out. */
  lemma OnLoanWithout(t: Tables, after: Tables, loanId: LoanId, b: BookId)
    requires after.loans == t.loans - {loanId}
    ensures OnLoan(after, b) == OnLoan(t, b) - {loanId}
  {
  }

  /** Deleting a borrowed or a returned loan keeps the ledger. */
  lemma DeleteLoanKeepsBalance(t: Tables, loanId: LoanId)
    requires Balanced(t)
    requires loanId in t.loans && t.loans[loanId].status != Overdue
    ensures Balanced(DeleteLoanSpec(t, loanId).value.tables)
  {
    var loan := t.loans[loanId];
    var books := if loan.status == Borrowed then ReleaseCopy(t.books, loan.bookId) else t.books;
    var after := t.(books := books, loans := t.loans - {loanId});
    assert DeleteLoanSpec(t, loanId).value.tables == after;
    forall b | b in after.books
      ensures after.books[b].availableCopies == after.books[b].totalCopies - |OnLoan(after, b)|
    {
      OnLoanWithout(t, after, loanId, b);
      if b == loan.bookId && loan.status == Borrowed {
        assert books[b].availableCopies == t.books[b].availableCopies + 1;
        assert loanId in OnLoan(t, b);
      } else {
        assert books[b] == t.books[b];
        assert loanId !in OnLoan(t, b);
      }
    }
  }

  /** A book of one copy out on an overdue loan. */
  function OverdueExample(): Tables {
    Tables(map[1 := Book("Dune", None, None, None, 1, 0, None, [])],
           map[1 := Member("Ada", "Lovelace", "ada@example.org", None, None, 0, Active)],
           map[1 := Loan(1, 1, 0, 14, None, Overdue, 0)],
           {}, 2, 2, 2)
  }

  /**
   * Deleting an overdue loan drops it without giving the copy back, although
   * returning the same loan would: the ledger is balanced before and not after.
   */
  lemma DeletingOverdueLoanLosesCopy()
    ensures WellFormed(OverdueExample()) && Balanced(OverdueExample())
    ensures DeleteLoanSpec(OverdueExample(), 1).Ok?
    ensures !Balanced(DeleteLoanSpec(OverdueExample(), 1).value.tables)
    ensures Balanced(ReturnBookSpec(OverdueExample(), 1, 20).value.tables)
  {
    var t := OverdueExample();
    assert OnLoan(t, 1) == {1};
    var after := DeleteLoanSpec(t, 1).value.tables;
    assert OnLoan(after, 1) == {};
    assert after.books[1].availableCopies != after.books[1].totalCopies - |OnLoan(after, 1)|;
    ReturnBookKeepsBalance(t, 1, 20);
  }

  /** The same book with its one loan already returned. */
  function ReturnedExample(): Tables {
    OverdueExample().(books := map[1 := Book("Dune", None, None, None, 1, 1, None, [])],
                      loans := map[1 := Loan(1, 1, 0, 14, Some(10), Returned, 0)])
  }

  /** Setting a returned loan back to `borrowed` through the generic update takes no copy. */
  lemma ReopeningUpdateBreaksBalance()
    ensures Balanced(ReturnedExample())
    ensures !Balanced(UpdateLoanSpec(ReturnedExample(), 1, LoanUpdate(Unset, Set(Borrowed), Unset), 20).value.tables)
  {
    var t := ReturnedExample();
    assert OnLoan(t, 1) == {};
    var after := UpdateLoanSpec(t, 1, LoanUpdate(Unset, Set(Borrowed), Unset), 20).value.tables;
    assert OnLoan(after, 1) == {1};
    assert after.books[1].availableCopies != after.books[1].totalCopies - |OnLoan(after, 1)|;
  }

  /** Reopening a returned loan and closing it again gives its copy back twice. */
  lemma ReopenThenCloseOverfillsBook()
    ensures var reopened := UpdateLoanSpec(ReturnedExample(), 1, LoanUpdate(Unset, Set(Borrowed), Unset), 20).value.tables;
            var closed := UpdateLoanSpec(reopened, 1, LoanUpdate(Unset, Set(Returned), Unset), 21).value.tables;
            closed.books[1].availableCopies == 2 > closed.books[1].totalCopies
  {
  }

  /** A new book starts balanced: no loan can refer to its fresh id. */
  lemma CreateBookKeepsBalance(t: Tables, p: BookCreate)
    requires WellFormed(t) && Balanced(t)
    requires CreateBookSpec(t, p).Ok?
    ensures Balanced(CreateBookSpec(t, p).value.tables)
  {
    var after := CreateBookSpec(t, p).value.tables;
    var id := t.nextBookId;
    forall b | b in after.books
      ensures after.books[b].availableCopies == after.books[b].totalCopies - |OnLoan(after, b)|
    {
      assert OnLoan(after, b) == OnLoan(t, b);
      if b == id {
        assert forall l :: l in t.loans ==> t.loans[l].bookId != id;
        assert OnLoan(t, b) == {};
      }
    }
  }

  /** An edit of a book keeps the ledger when it keeps total minus available copies. */
  lemma UpdateBookKeepsBalance(t: Tables, bookId: BookId, p: BookUpdate)
    requires Balanced(t)
    requires bookId in t.books
    requires p.totalCopies.Or(t.books[bookId].totalCopies) - p.availableCopies.Or(t.books[bookId].availableCopies)
             == t.books[bookId].totalCopies - t.books[bookId].availableCopies
    ensures UpdateBookSpec(t, bookId, p).Ok? ==> Balanced(UpdateBookSpec(t, bookId, p).value.tables)
  {
  }

  /** Deleting a book, and every member handler, keep the ledger. */
  lemma OtherHandlersKeepBalance(t: Tables, bookId: BookId, memberId: MemberId,
                                 mc: MemberCreate, mu: MemberUpdate, today: Date)
    requires Balanced(t)
    ensures DeleteBookSpec(t, bookId).Ok? ==> Balanced(DeleteBookSpec(t, bookId).value.tables)
    ensures CreateMemberSpec(t, mc, today).Ok? ==> Balanced(CreateMemberSpec(t, mc, today).value.tables)
    ensures UpdateMemberSpec(t, memberId, mu).Ok? ==> Balanced(UpdateMemberSpec(t, memberId, mu).value.tables)
    ensures DeleteMemberSpec(t, memberId).Ok? ==> Balanced(DeleteMemberSpec(t, memberId).value.tables)
  {
  }
}
