/** The client errors the handlers raise, and the result of a handler. */
module Errors {
  import opened Models

  datatype Error =
    | BookNotFound
    | MemberNotFound
    | LoanNotFound
    | AuthorNotFound(authorId: AuthorId)
    | BookUnavailable
    | MemberIneligible(status: MembershipStatus)
    | AlreadyReturned
    | EmailTaken

  datatype Result<+T> = Ok(value: T) | Err(error: Error)
}
