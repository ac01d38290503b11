/**
 * The rows of the three tables the loan rules work on (books, members and
 * loans), as values.  Money is kept in integer cents: the fine column is a
 * two-decimal DECIMAL, so cents represent it exactly.
 */
module Models {
  import opened Wrappers
  import opened Dates

  type BookId = int
  type MemberId = int
  type LoanId = int
  type AuthorId = int
  type CategoryId = int

  /** An amount of money in cents. */
  type Cents = int

  /** The `loan_status` enumeration of the loans table. */
  datatype LoanStatus = Borrowed | Returned | Overdue

  /** The `membership_status` enumeration of the members table. */
  datatype MembershipStatus = Active | Expired | Suspended

  /** A row of the books table, with its author list (the book_authors rows). */
  datatype Book = Book(
    title: string,
    isbn: Option<string>,
    publicationYear: Option<int>,
    publisher: Option<string>,
    totalCopies: int,
    availableCopies: int,
    categoryId: Option<CategoryId>,
    authors: seq<AuthorId>)

  /** A row of the members table. */
  datatype Member = Member(
    firstName: string,
    lastName: string,
    email: string,
    phone: Option<string>,
    address: Option<string>,
    membershipDate: Date,
    membershipStatus: MembershipStatus)

  /** A row of the loans table. */
  datatype Loan = Loan(
    bookId: BookId,
    memberId: MemberId,
    loanDate: Date,
    dueDate: Date,
    returnDate: Option<Date>,
    status: LoanStatus,
    fineAmount: Cents)
}
