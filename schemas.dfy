/**
 * The request payloads.  A field of an update payload is either absent from
 * the request (`Unset`) or supplied (`Set`); for a nullable column the
 * supplied value may itself be `None`, which writes NULL.
 */
module Schemas {
  import opened Wrappers
  import opened Dates
  import opened Models

  /** One field of a partial update: left out of the request, or given a value. */
  datatype Patch<+T> = Unset | Set(value: T) {

    /** The value of the field after the update is applied to `current`. */
    function Or(current: T): T {
      if Set? then value else current
    }
  }

  datatype LoanCreate = LoanCreate(bookId: BookId, memberId: MemberId, dueDate: Date)

  datatype LoanUpdate = LoanUpdate(
    returnDate: Patch<Option<Date>>,
    status: Patch<LoanStatus>,
    fineAmount: Patch<Cents>)

  /** `totalCopies` defaults to one copy when the request leaves it out. */
  datatype BookCreate = BookCreate(
    title: string,
    isbn: Option<string>,
    publicationYear: Option<int>,
    publisher: Option<string>,
    totalCopies: int := 1,
    categoryId: Option<CategoryId>,
    authorIds: seq<AuthorId>)

  /** `authorIds` is `None` when the request leaves it out or sends null. */
  datatype BookUpdate = BookUpdate(
    title: Patch<string>,
    isbn: Patch<Option<string>>,
    publicationYear: Patch<Option<int>>,
    publisher: Patch<Option<string>>,
    totalCopies: Patch<int>,
    availableCopies: Patch<int>,
    categoryId: Patch<Option<CategoryId>>,
    authorIds: Option<seq<AuthorId>>)

  datatype MemberCreate = MemberCreate(
    firstName: string,
    lastName: string,
    email: string,
    phone: Option<string>,
    address: Option<string>)

  datatype MemberUpdate = MemberUpdate(
    firstName: Patch<string>,
    lastName: Patch<string>,
    email: Patch<string>,
    phone: Patch<Option<string>>,
    address: Patch<Option<string>>,
    membershipStatus: Patch<MembershipStatus>)
}
