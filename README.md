# Library loans: copy-count bookkeeping, modelled in Dafny

This project models the core of a library-management HTTP service: the loan
lifecycle and the book and member handlers around it. The model covers:

- opening a loan. Four checks run in a fixed order, then the book loses one
  available copy.
- the dedicated return operation. It refuses a loan that is already returned.
- the generic loan update. It gives a copy back only when it closes the loan,
  then writes every supplied field over the row.
- deleting a loan. The copy comes back only if the loan was still `borrowed`.
- the late fine of 0.50 per whole day late.
- creating, reading, updating and deleting books. A new book has all its
  copies available, its authors must exist, and a given author list replaces
  the old one.
- creating, reading, updating and deleting members. Emails stay unique and a
  new member is `active`.

The database is a class `Database.Store` with one map per table (books,
members, loans), the set of existing author ids, and one auto-increment
counter per table. `Store.Snapshot()` gives the tables as a `Database.Tables`
value.

Each handler is written twice:

- a function `...Spec` says what the handler does to a `Tables` value. It
  returns either an error or the committed tables with the response.
- a method does the same work step by step on the store. It looks rows up,
  checks them and patches fields one by one, and resolves authors in a loop.
  Its postcondition `Persisted` ties the result and the new store to the
  `...Spec` function.

`Persisted` also encodes the transaction rule: a handler that raises does so
before `commit`, so an error leaves every table unchanged.

The properties are lemmas about the `...Spec` functions. They live in
`LoanProperties`, `BookProperties`, `MemberProperties`, `Invariants` (ids stay
below their counters) and `Ledger`. The ledger is the availability invariant:
a book's available copies equal its total copies minus its loans that have not
been returned.

Representation choices:

- Dates are day numbers: the proleptic Gregorian ordinal, as Python's
  `date.toordinal()` computes it.
- The current date `today` is a parameter of every handler that reads the
  clock. It also stands in for the database's `current_date` defaults.
- Money is integer cents, so the fine rate is 50 cents per day.
- An update payload field is `Patch.Unset` when the request leaves it out and
  `Patch.Set(v)` when the request supplies it. This is what
  `dict(exclude_unset=True)` keeps. Nullable columns take `Patch<Option<T>>`,
  so a request can write NULL.

Behaviour of the code worth knowing:

- A copy coming back raises `available_copies` with no upper clamp at `total_copies`.
- Opening a loan does not check that the due date falls on or after the loan date.
- The generic update may set a returned loan back to `borrowed` or `overdue`, taking no copy.
- Book edits write `total_copies` and `available_copies` as given, with no reconciliation.
- Deleting an `overdue` loan keeps its copy, because only a `borrowed` loan gives its copy back (app/routes/loan.py:139), while the dedicated return gives a copy back for an `overdue` loan too (app/routes/loan.py:156); `Ledger.DeletingOverdueLoanLosesCopy` exhibits this.
- Setting a returned loan back to `borrowed` through the generic update and then closing it again gives its copy back a second time, so a book can end with more available copies than it has; `Ledger.ReopenThenCloseOverfillsBook` exhibits this on a book with one copy.

## Model

| member | source | states |
|---|---|---|
| `LoanRoutes.CreateLoan` | app/routes/loan.py:20-62 | the store and response are exactly those of `CreateLoanSpec` (the opening rule); an error writes nothing |
| `LoanRoutes.ReadLoan` | app/routes/loan.py:92-97 | not found exactly when the id is absent; otherwise the stored row |
| `LoanRoutes.UpdateLoan` | app/routes/loan.py:100-129 | the store and response are exactly those of `UpdateLoanSpec` (the generic-update rule); an error writes nothing |
| `LoanRoutes.DeleteLoan` | app/routes/loan.py:132-146 | the store is exactly that of `DeleteLoanSpec` (the deletion rule); a missing loan writes nothing |
| `LoanRoutes.ReturnBook` | app/routes/loan.py:149-179 | the store and response are exactly those of `ReturnBookSpec` (the return rule); an error writes nothing |
| `LoanRoutes.LateFine` | app/routes/loan.py:119-122 | the shared fine rule: a late return gives a positive whole number of 50-cent days equal to the days late; an on-time return keeps the stored fine |
| `LoanProperties.LateFineRule` | app/routes/loan.py:118-122 | a late return costs 50 cents per day late (a positive amount); one on or before the due date keeps the stored fine |
| `LoanProperties.FineOnlyWhenLate` | app/routes/loan.py:172-175 | starting from a zero fine, the fine is non-zero exactly when the return is late, and never negative |
| `LoanProperties.TenDaysLateExample` | app/routes/loan.py:172-175 | due 2024-01-01 and returned 2024-01-11 is 10 days late and a fine of 5.00 |
| `LoanProperties.LeapDayExample` | app/routes/loan.py:172-175 | due 2024-02-28 and returned 2024-03-01 is 2 days late (the leap day counts) and a fine of 1.00; the same dates in 2023 are 1 day apart |
| `LoanProperties.CreateLoanCheckOrder` | app/routes/loan.py:23-46 | book missing, then no copy available, then member missing, then member not active: each error arises exactly when the earlier checks pass and its own fails; the ineligible error carries the member's status; success exactly when all four pass |
| `LoanProperties.CreateLoanAddsBorrowedLoan` | app/routes/loan.py:49-60 | the new loan has the given book, member and due date, was lent today, is borrowed, has no return date and fine 0; it gets a fresh id in a well-formed store; other loans and all members are unchanged |
| `LoanProperties.CreateLoanTakesOneCopy` | app/routes/loan.py:29-57 | the requested book loses exactly one available copy and stays at zero or above; no other field or book changes |
| `LoanProperties.ReturnBookErrors` | app/routes/loan.py:152-160 | not found exactly for a missing loan; already-returned exactly for a returned loan; success exactly for a borrowed or overdue loan |
| `LoanProperties.ReturnBookCloses` | app/routes/loan.py:162-175 | the loan gets return date today and status returned; if it is late its fine becomes 50 cents per day late, otherwise the fine is kept; its book, if it still exists, gains exactly one copy; nothing else changes |
| `LoanProperties.NoDoubleReturn` | app/routes/loan.py:156-169 | after a successful return, a second return is refused, so over both calls the book gains exactly one copy |
| `LoanProperties.UpdateLoanErrors` | app/routes/loan.py:102-104 | the generic update fails exactly for a missing loan, with not-found |
| `LoanProperties.UpdateLoanReleasesOnlyWhenClosing` | app/routes/loan.py:109-116 | the loan's book gains one copy exactly when the payload status is returned and the stored status is not; otherwise and for every other book availability is unchanged |
| `LoanProperties.UpdateLoanFields` | app/routes/loan.py:106-125 | every supplied field wins (a supplied fine overrides the computed one); when closing, the return date defaults to today and the late fine is charged first; book, member, loan date and due date never change; no other loan changes |
| `LoanProperties.DeleteLoanReconciles` | app/routes/loan.py:134-144 | not found exactly for a missing loan; otherwise exactly that loan is removed, and its book gains one copy if and only if the loan was borrowed |
| `BookRoutes.ResolveAuthors` | app/routes/book.py:31-38 | the author list is the given id list exactly when every id exists; otherwise the error names the first missing id |
| `BookRoutes.CollectAuthors` | app/routes/book.py:94-101 | the lookup loop appends each existing author in order and stops at the first missing one, giving the result of `ResolveAuthors` |
| `BookRoutes.CreateBook` | app/routes/book.py:17-43 | the store and response are exactly those of `CreateBookSpec` (the creation rule); an unknown author writes nothing |
| `BookRoutes.ReadBook` | app/routes/book.py:69-74 | not found exactly when the id is absent; otherwise the stored row |
| `BookRoutes.UpdateBook` | app/routes/book.py:77-105 | the store and response are exactly those of `UpdateBookSpec` (the update rule); an unknown author writes nothing, not even the scalar fields |
| `BookRoutes.DeleteBook` | app/routes/book.py:108-116 | the store is exactly that of `DeleteBookSpec` (the deletion rule); a missing book writes nothing |
| `BookProperties.CreateBookUnknownAuthor` | app/routes/book.py:31-40 | creation fails exactly when some author id is unknown, with the error for the first unknown id |
| `BookProperties.CreateBookStartsFullyAvailable` | app/routes/book.py:20-38 | the new book has available copies equal to total copies, exactly the given author list in the request's order and the payload's fields; it gets a fresh id in a well-formed store and nothing else changes |
| `BookProperties.UpdateBookErrors` | app/routes/book.py:79-100 | not found exactly for a missing book; an author error exactly when a list is given that names an unknown author |
| `BookProperties.UpdateBookPatchesFields` | app/routes/book.py:84-101 | only supplied fields change, copy counts are written as given, and the author list is replaced by the given list or kept; no other book, loan or member changes |
| `BookProperties.DeleteBookRemoves` | app/routes/book.py:110-115 | not found exactly for a missing book; otherwise exactly that book leaves the table |
| `MemberRoutes.CreateMember` | app/routes/member.py:16-36 | the store and response are exactly those of `CreateMemberSpec` (the registration rule); a taken email writes nothing |
| `MemberRoutes.ReadMember` | app/routes/member.py:62-67 | not found exactly when the id is absent; otherwise the stored row |
| `MemberRoutes.UpdateMember` | app/routes/member.py:70-91 | the store and response are exactly those of `UpdateMemberSpec` (the member update rule); an error writes nothing |
| `MemberRoutes.DeleteMember` | app/routes/member.py:94-102 | the store is exactly that of `DeleteMemberSpec` (the deletion rule); a missing member writes nothing |
| `MemberProperties.CreateMemberChecksEmail` | app/routes/member.py:18-35 | registration fails with email-taken exactly when some member has that email; otherwise the new member has the given fields, today's date and status active, under a fresh id |
| `MemberProperties.CreateMemberKeepsEmailsUnique` | app/routes/member.py:18-24 | registration keeps every email unique |
| `MemberProperties.UpdateMemberKeepsEmailsUnique` | app/routes/member.py:76-87 | a member update keeps every email unique |
| `MemberProperties.UpdateMemberOwnEmailAccepted` | app/routes/member.py:77 | resending the member's own email is never refused |
| `MemberProperties.UpdateMemberTakenEmailRefused` | app/routes/member.py:77-83 | asking for another member's email is refused with email-taken |
| `MemberProperties.UpdateMemberPatchesFields` | app/routes/member.py:85-87 | only supplied fields change, membership status among them; the membership date and every other table stay the same |
| `MemberProperties.MissingMemberNotFound` | app/routes/member.py:72-98 | update and delete fail with not-found exactly for a missing member; delete removes exactly that member |
| `Invariants.LoanHandlersKeepWellFormed` | app/models/loan.py:10-12 | the loan handlers keep ids below their counters and loans pointing at ids already handed out |
| `Invariants.BookHandlersKeepWellFormed` | app/models/book.py:19 | the book handlers keep the tables well formed |
| `Invariants.MemberHandlersKeepWellFormed` | app/models/member.py:10 | the member handlers keep the tables well formed |
| `Ledger.EmptyStoreBalanced` | app/main.py:9 | the empty library the store starts as is balanced and well formed, so the ledger is an invariant from the start |
| `Ledger.CreateLoanKeepsBalance` | app/routes/loan.py:49-57 | opening a loan keeps available equal to total minus the loans still out, for every book |
| `Ledger.ReturnBookKeepsBalance` | app/routes/loan.py:162-169 | the dedicated return keeps the ledger, for borrowed and overdue loans alike |
| `Ledger.UpdateLoanKeepsBalance` | app/routes/loan.py:109-125 | the generic update keeps the ledger whenever it does not set a returned loan back to borrowed or overdue |
| `Ledger.DeleteLoanKeepsBalance` | app/routes/loan.py:139-144 | deleting a borrowed or returned loan keeps the ledger |
| `Ledger.DeletingOverdueLoanLosesCopy` | app/routes/loan.py:139-142 | a balanced store where deleting an overdue loan leaves the ledger unbalanced, while returning that loan keeps it balanced |
| `Ledger.ReopeningUpdateBreaksBalance` | app/routes/loan.py:124-125 | a balanced store where setting a returned loan back to borrowed through the generic update leaves the ledger unbalanced |
| `Ledger.ReopenThenCloseOverfillsBook` | app/routes/loan.py:109-125 | on a book with one copy and a returned loan, setting the loan back to borrowed and then closing it through the generic update leaves two available copies, more than the book has |
| `Ledger.CreateBookKeepsBalance` | app/routes/book.py:20-28 | a new book is balanced, since no loan can refer to its fresh id |
| `Ledger.UpdateBookKeepsBalance` | app/routes/book.py:84-86 | a book edit keeps the ledger when it keeps total minus available copies |
| `Ledger.OtherHandlersKeepBalance` | app/routes/book.py:108-115 | deleting a book keeps the ledger, and so does each member handler (app/routes/member.py:16-102) |

## Left out

- HTTP routing, status codes and the text of error messages. Each error is a constructor of `Errors.Error`.
- The ORM session, `commit`, `refresh`, `joinedload` and `get_db`. A raise before `commit` is modelled as no change.
- Rows are values in the table maps, not shared ORM objects. Updating a field in place is modelled as writing a new row under the same id, so there is no aliasing between rows.
- Database constraints. Examples: the database refuses a second book with the same non-null ISBN (the UNIQUE constraint on `isbn`, app/models/book.py:21), a second member with the same email at commit (the UNIQUE constraint on `email`, app/models/member.py:13; the handlers' own email check is modelled), an explicit NULL for a non-nullable column, a status string outside the enumeration, a category id that does not exist, and deleting a book or member that loans still refer to. Typed payloads rule out the NULL and status cases. The others are not modelled: the model accepts a duplicate ISBN, a duplicate email stored past the handlers' check, and an unknown category id. It also lacks the refusal to delete a book or member that loans refer to, so in the model a loan can outlive its book; the handlers' `if book:` guard covers that case.
- `LoanRoutes.UpdateLoan`: the payload status is a string that the handler compares to `returned` exactly (app/routes/loan.py:109), while the database's enumeration column stores any letter case of an enumeration value as that value (app/models/loan.py:16-20). So a payload such as `RETURNED` closes a borrowed loan without giving its copy back, setting a return date or charging a fine, and afterwards neither the dedicated return nor deletion gives the copy back. The typed `LoanStatus` of the payload cannot express such a string.
- `BookRoutes.CreateBook`, `BookRoutes.UpdateBook` and `BookRoutes.ReadBook`: the association table keeps no order, so the database returns a book's authors in its own order; the model keeps the request's order.
- Email comparison is exact string equality. The database collation may compare emails without regard to case, and this is not modelled.
- Email format validation (a foreign library), and duplicate ids in an author list, which the association table's key would refuse at commit.
- Apart from the books' references to them (the author ids that book creation and update check, and `categoryId`), the author and category tables and their handlers are not part of this model. Authors are a fixed set of ids.
- The list endpoints (text search, filters, offset and limit), the application setup and the health probe.
- `created_at` and `updated_at` timestamps.
- The 32-bit range of integer columns, and the DECIMAL(10,2) range and sub-cent rounding of a supplied fine.
- Concurrent requests. Each handler is one atomic step.
