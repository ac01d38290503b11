/**
 * The database as the handlers see it: three tables keyed by id, the set of
 * author ids that exist, and the next value of each auto-increment counter.
 * A handler either raises before `commit` (nothing is written) or commits
 * all its changes at once; `Persisted` says exactly that.
 */
module Database {
  import opened Models
  import opened Errors

  datatype Tables = Tables(
    books: map<BookId, Book>,
    members: map<MemberId, Member>,
    loans: map<LoanId, Loan>,
    authors: set<AuthorId>,
    nextBookId: int,
    nextMemberId: int,
    nextLoanId: int)

  /** What a successful handler commits: the new tables and its response. */
  datatype Committed<+T> = Committed(tables: Tables, value: T)

  /**
   * Every id is below its counter, and every loan refers to ids that were
   * handed out (the book or member itself may since have been deleted).
   */
  ghost predicate WellFormed(t: Tables) {
    && (forall id :: id in t.books ==> id < t.nextBookId)
    && (forall id :: id in t.members ==> id < t.nextMemberId)
    && (forall id :: id in t.loans ==> id < t.nextLoanId)
    && (forall id :: id in t.loans ==> t.loans[id].bookId < t.nextBookId)
    && (forall id :: id in t.loans ==> t.loans[id].memberId < t.nextMemberId)
  }

  /**
   * The handler returned `r` and left the tables `after`, as `spec` (what the
   * handler does to `before`) prescribes: on an error nothing was written.
   */
  ghost predicate Persisted<T>(before: Tables, after: Tables, r: Result<T>, spec: Result<Committed<T>>) {
    match spec
    case Ok(c) => r == Ok(c.value) && after == c.tables
    case Err(e) => r == Err(e) && after == before
  }

  /** The database session: the tables the handlers read and update in place. */
  class Store {
    var books: map<BookId, Book>
    var members: map<MemberId, Member>
    var loans: map<LoanId, Loan>
    var authors: set<AuthorId>
    var nextBookId: int
    var nextMemberId: int
    var nextLoanId: int

    /** An empty library whose authors table holds `authorIds`. */
    constructor (authorIds: set<AuthorId>)
      ensures Snapshot() == Tables(map[], map[], map[], authorIds, 1, 1, 1)
      ensures WellFormed(Snapshot())
    {
      books, members, loans := map[], map[], map[];
      authors := authorIds;
      nextBookId, nextMemberId, nextLoanId := 1, 1, 1;
    }

    /** The current contents of the tables. */
    function Snapshot(): Tables
      reads this
    {
      Tables(books, members, loans, authors, nextBookId, nextMemberId, nextLoanId)
    }
  }
}
