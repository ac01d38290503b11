/**
 * The loan handlers: opening a loan, the generic update, deletion, the
 * dedicated return operation and the late-fine rule they share.  Each
 * handler is given twice: a function saying what it does to the tables
 * (`...Spec`) and the method that does it step by step on the store.
 */
module LoanRoutes {
  import opened Wrappers
  import opened Dates
  import opened Models
  import opened Schemas
  import opened Errors
  import opened Database

  /** The fine rate: 0.50 per whole day late. */
  const FinePerDayCents: Cents := 50

  /**
   * The fine of a loan due on `due` and returned on `returned` whose stored
   * fine is `current`: charged per day late, otherwise left as it was.
   */
  function LateFine(due: Date, returned: Date, current: Cents): (fine: Cents)
    ensures due < returned ==> fine > 0 && fine % FinePerDayCents == 0 && fine / FinePerDayCents == returned - due
    ensures returned <= due ==> fine == current
  {
    if due < returned then (returned - due) * FinePerDayCents else current
  }

  /** A loan just opened: borrowed today, nothing returned, no fine. */
  function NewLoan(req: LoanCreate, today: Date): Loan {
    Loan(req.bookId, req.memberId, today, req.dueDate, None, Borrowed, 0)
  }

  /** The books table after a copy of book `id` is handed out. */
  function TakeCopy(books: map<BookId, Book>, id: BookId): map<BookId, Book>
    requires id in books
  {
    books[id := books[id].(availableCopies := books[id].availableCopies - 1)]
  }

  /** The books table after a copy of book `id` comes back, if the book still exists. */
  function ReleaseCopy(books: map<BookId, Book>, id: BookId): map<BookId, Book> {
    if id in books then books[id := books[id].(availableCopies := books[id].availableCopies + 1)]
    else books
  }

  /** The loan with every field the payload supplies written over it. */
  function ApplyLoanUpdate(loan: Loan, p: LoanUpdate): Loan {
    loan.(returnDate := p.returnDate.Or(loan.returnDate),
          status := p.status.Or(loan.status),
          fineAmount := p.fineAmount.Or(loan.fineAmount))
  }

  /** The return date the generic update uses: the payload's, else today. */
  function UpdateReturnDate(p: LoanUpdate, today: Date): Date {
    if p.returnDate.Set? && p.returnDate.value.Some? then p.returnDate.value.value else today
  }

  /** Whether the generic update closes the loan: it asks for `returned` and the loan is not. */
  predicate UpdateCloses(loan: Loan, p: LoanUpdate) {
    p.status == Set(Returned) && loan.status != Returned
  }

  // ---------------------------------------------------------------------
  // What each handler does to the tables
  // ---------------------------------------------------------------------

  function CreateLoanSpec(t: Tables, req: LoanCreate, today: Date): Result<Committed<(LoanId, Loan)>> {
    if req.bookId !in t.books then Err(BookNotFound)
    else if t.books[req.bookId].availableCopies <= 0 then Err(BookUnavailable)
    else if req.memberId !in t.members then Err(MemberNotFound)
    else if t.members[req.memberId].membershipStatus != Active then
      Err(MemberIneligible(t.members[req.memberId].membershipStatus))
    else
      var id := t.nextLoanId;
      var loan := NewLoan(req, today);
      Ok(Committed(t.(books := TakeCopy(t.books, req.bookId),
                      loans := t.loans[id := loan],
                      nextLoanId := id + 1),
                   (id, loan)))
  }

  function UpdateLoanSpec(t: Tables, loanId: LoanId, p: LoanUpdate, today: Date): Result<Committed<Loan>> {
    if loanId !in t.loans then Err(LoanNotFound)
    else
      var loan := t.loans[loanId];
      var closing := UpdateCloses(loan, p);
      var rd := UpdateReturnDate(p, today);
      var computed :=
        if closing then loan.(returnDate := Some(rd), fineAmount := LateFine(loan.dueDate, rd, loan.fineAmount))
        else loan;
      var updated := ApplyLoanUpdate(computed, p);
      Ok(Committed(t.(books := if closing then ReleaseCopy(t.books, loan.bookId) else t.books,
                      loans := t.loans[loanId := updated]),
                   updated))
  }

  function DeleteLoanSpec(t: Tables, loanId: LoanId): Result<Committed<()>> {
    if loanId !in t.loans then Err(LoanNotFound)
    else
      var loan := t.loans[loanId];
      Ok(Committed(t.(books := if loan.status == Borrowed then ReleaseCopy(t.books, loan.bookId) else t.books,
                      loans := t.loans - {loanId}),
                   ()))
  }

  function ReturnBookSpec(t: Tables, loanId: LoanId, today: Date): Result<Committed<Loan>> {
    if loanId !in t.loans then Err(LoanNotFound)
    else if t.loans[loanId].status == Returned then Err(AlreadyReturned)
    else
      var loan := t.loans[loanId];
      var returned := loan.(returnDate := Some(today), status := Returned,
                            fineAmount := LateFine(loan.dueDate, today, loan.fineAmount));
      Ok(Committed(t.(books := ReleaseCopy(t.books, loan.bookId),
                      loans := t.loans[loanId := returned]),
                   returned))
  }

  // ---------------------------------------------------------------------
  // The handlers
  // ---------------------------------------------------------------------

  /** Open a loan: four checks in order, then the loan row and one copy fewer. */
  method CreateLoan(db: Store, req: LoanCreate, today: Date) returns (r: Result<(LoanId, Loan)>)
    modifies db
    ensures Persisted(old(db.Snapshot()), db.Snapshot(), r, CreateLoanSpec(old(db.Snapshot()), req, today))
  {
    if req.bookId !in db.books {
      return Err(BookNotFound);
    }
    var book := db.books[req.bookId];
    if book.availableCopies <= 0 {
      return Err(BookUnavailable);
    }
    if req.memberId !in db.members {
      return Err(MemberNotFound);
    }
    var member := db.members[req.memberId];
    if member.membershipStatus != Active {
      return Err(MemberIneligible(member.membershipStatus));
    }
    var loan := Loan(req.bookId, req.memberId, today, req.dueDate, None, Borrowed, 0);
    book := book.(availableCopies := book.availableCopies - 1);
    db.books := db.books[req.bookId := book];
    var id := db.nextLoanId;
    db.loans := db.loans[id := loan];
    db.nextLoanId := id + 1;
    r := Ok((id, loan));
  }

  /** Look a loan up by id. */
  method ReadLoan(db: Store, loanId: LoanId) returns (r: Result<Loan>)
    ensures r.Err? <==> loanId !in db.loans
    ensures r.Err? ==> r.error == LoanNotFound
    ensures r.Ok? ==> r.value == db.loans[loanId]
  {
    if loanId !in db.loans {
      return Err(LoanNotFound);
    }
    r := Ok(db.loans[loanId]);
  }

  /** The generic update: close the loan if asked to, then write every supplied field. */
  method UpdateLoan(db: Store, loanId: LoanId, p: LoanUpdate, today: Date) returns (r: Result<Loan>)
    modifies db
    ensures Persisted(old(db.Snapshot()), db.Snapshot(), r, UpdateLoanSpec(old(db.Snapshot()), loanId, p, today))
  {
    if loanId !in db.loans {
      return Err(LoanNotFound);
    }
    var loan := db.loans[loanId];
    if p.status == Set(Returned) && loan.status != Returned {
      var returnDate := if p.returnDate.Set? && p.returnDate.value.Some? then p.returnDate.value.value else today;
      loan := loan.(returnDate := Some(returnDate));
      if loan.bookId in db.books {
        var book := db.books[loan.bookId];
        db.books := db.books[loan.bookId := book.(availableCopies := book.availableCopies + 1)];
      }
      if loan.dueDate < returnDate {
        var daysLate := returnDate - loan.dueDate;
        loan := loan.(fineAmount := daysLate * FinePerDayCents);
      }
    }
    // every field present in the request is written over the row
    if p.returnDate.Set? {
      loan := loan.(returnDate := p.returnDate.value);
    }
    if p.status.Set? {
      loan := loan.(status := p.status.value);
    }
    if p.fineAmount.Set? {
      loan := loan.(fineAmount := p.fineAmount.value);
    }
    db.loans := db.loans[loanId := loan];
    r := Ok(loan);
  }

  /** Delete a loan, giving the copy back first when the loan is still borrowed. */
  method DeleteLoan(db: Store, loanId: LoanId) returns (r: Result<()>)
    modifies db
    ensures Persisted(old(db.Snapshot()), db.Snapshot(), r, DeleteLoanSpec(old(db.Snapshot()), loanId))
  {
    if loanId !in db.loans {
      return Err(LoanNotFound);
    }
    var loan := db.loans[loanId];
    if loan.status == Borrowed && loan.bookId in db.books {
      var book := db.books[loan.bookId];
      db.books := db.books[loan.bookId := book.(availableCopies := book.availableCopies + 1)];
    }
    db.loans := db.loans - {loanId};
    r := Ok(());
  }

  /** The dedicated return operation, which refuses a loan already returned. */
  method ReturnBook(db: Store, loanId: LoanId, today: Date) returns (r: Result<Loan>)
    modifies db
    ensures Persisted(old(db.Snapshot()), db.Snapshot(), r, ReturnBookSpec(old(db.Snapshot()), loanId, today))
  {
    if loanId !in db.loans {
      return Err(LoanNotFound);
    }
    var loan := db.loans[loanId];
    if loan.status == Returned {
      return Err(AlreadyReturned);
    }
    loan := loan.(returnDate := Some(today), status := Returned);
    if loan.bookId in db.books {
      var book := db.books[loan.bookId];
      db.books := db.books[loan.bookId := book.(availableCopies := book.availableCopies + 1)];
    }
    if loan.dueDate < today {
      var daysLate := today - loan.dueDate;
      loan := loan.(fineAmount := daysLate * FinePerDayCents);
    }
    db.loans := db.loans[loanId := loan];
    r := Ok(loan);
  }
}
