/** What the book handlers promise, stated over their table functions. */
module BookProperties {
  import opened Models
  import opened Schemas
  import opened Errors
  import opened Database
  import opened BookRoutes

  /** Whether some id of `ids` names no author. */
  predicate SomeAuthorMissing(known: set<AuthorId>, ids: seq<AuthorId>) {
    exists i :: 0 <= i < |ids| && ids[i] !in known
  }

  /**
   * Creation fails exactly when some author id is unknown, naming the first
   * such id; the books table is then untouched.
   */
  lemma CreateBookUnknownAuthor(t: Tables, p: BookCreate)
    ensures CreateBookSpec(t, p).Err? <==> SomeAuthorMissing(t.authors, p.authorIds)
    ensures CreateBookSpec(t, p).Err? ==>
            exists i :: 0 <= i < |p.authorIds| && p.authorIds[i] !in t.authors
                        && CreateBookSpec(t, p).error == AuthorNotFound(p.authorIds[i])
                        && forall j :: 0 <= j < i ==> p.authorIds[j] in t.authors
  {
  }

  /**
   * A created book has all of its copies available, exactly the given author
   * list in the request's order, the payload's other fields, and a fresh id.
   */
  lemma CreateBookStartsFullyAvailable(t: Tables, p: BookCreate)
    requires CreateBookSpec(t, p).Ok?
    ensures var c := CreateBookSpec(t, p).value;
            var (id, book) := c.value;
            && book.availableCopies == book.totalCopies == p.totalCopies
            && book.authors == p.authorIds
            && book.title == p.title && book.isbn == p.isbn
            && book.publicationYear == p.publicationYear && book.publisher == p.publisher
            && book.categoryId == p.categoryId
            && c.tables.books == t.books[id := book]
            && (WellFormed(t) ==> id !in t.books)
            && c.tables.loans == t.loans && c.tables.members == t.members
  {
  }

  /** An update fails for a missing book, or for an unknown author when a list is given. */
  lemma UpdateBookErrors(t: Tables, bookId: BookId, p: BookUpdate)
    ensures UpdateBookSpec(t, bookId, p) == Err(BookNotFound) <==> bookId !in t.books
    ensures UpdateBookSpec(t, bookId, p).Err? && UpdateBookSpec(t, bookId, p).error.AuthorNotFound?
            <==> bookId in t.books && p.authorIds.Some? && SomeAuthorMissing(t.authors, p.authorIds.value)
  {
  }

  /**
   * A successful update changes only the supplied fields of that one book:
   * copy counts are written as given, with no reconciliation, and the author
   * list is replaced by the given list or kept when none is given.
   */
  lemma UpdateBookPatchesFields(t: Tables, bookId: BookId, p: BookUpdate)
    requires UpdateBookSpec(t, bookId, p).Ok?
    ensures var c := UpdateBookSpec(t, bookId, p).value;
            var stored := t.books[bookId];
            var b := c.value;
            && c.tables.books == t.books[bookId := b]
            && b.title == (if p.title.Set? then p.title.value else stored.title)
            && b.isbn == (if p.isbn.Set? then p.isbn.value else stored.isbn)
            && b.publicationYear == (if p.publicationYear.Set? then p.publicationYear.value else stored.publicationYear)
            && b.publisher == (if p.publisher.Set? then p.publisher.value else stored.publisher)
            && b.totalCopies == (if p.totalCopies.Set? then p.totalCopies.value else stored.totalCopies)
            && b.availableCopies == (if p.availableCopies.Set? then p.availableCopies.value else stored.availableCopies)
            && b.categoryId == (if p.categoryId.Set? then p.categoryId.value else stored.categoryId)
            && b.authors == (if p.authorIds.Some? then p.authorIds.value else stored.authors)
            && c.tables.loans == t.loans && c.tables.members == t.members
  {
  }

  /** Deletion fails for a missing book and otherwise removes exactly that book. */
  lemma DeleteBookRemoves(t: Tables, bookId: BookId)
    ensures DeleteBookSpec(t, bookId).Err? <==> bookId !in t.books
    ensures DeleteBookSpec(t, bookId).Err? ==> DeleteBookSpec(t, bookId).error == BookNotFound
    ensures DeleteBookSpec(t, bookId).Ok? ==>
            var after := DeleteBookSpec(t, bookId).value.tables;
            after.books.Keys == t.books.Keys - {bookId}
            && (forall b :: b in after.books ==> after.books[b] == t.books[b])
            && after.loans == t.loans
  {
  }
}
