/**
 * The book handlers: creation (availability starts at the number of copies,
 * every author must exist), lookup, the partial update (fields written
 * directly, author list replaced wholesale) and deletion.
 */
module BookRoutes {
  import opened Models
  import opened Schemas
  import opened Errors
  import opened Database

  /**
   * The author list built from `ids`, looking each id up in turn: the list
   * itself when every id exists, otherwise the error for the first missing id.
   */
  function ResolveAuthors(known: set<AuthorId>, ids: seq<AuthorId>): (r: Result<seq<AuthorId>>)
    ensures r.Ok? <==> forall i :: 0 <= i < |ids| ==> ids[i] in known
    ensures r.Ok? ==> r.value == ids
    ensures r.Err? ==> exists i :: 0 <= i < |ids| && ids[i] !in known && r.error == AuthorNotFound(ids[i])
                                   && forall j :: 0 <= j < i ==> ids[j] in known
  {
    if ids == [] then Ok([])
    else if ids[0] !in known then Err(AuthorNotFound(ids[0]))
    else
      match ResolveAuthors(known, ids[1..])
      case Ok(rest) => Ok([ids[0]] + rest)
      case Err(e) =>
        assert forall i :: 0 <= i < |ids| - 1 ==> ids[1..][i] == ids[i + 1];
        Err(e)
  }

  /** The book with every scalar field the payload supplies written over it. */
  function ApplyBookUpdate(book: Book, p: BookUpdate): Book {
    book.(title := p.title.Or(book.title),
          isbn := p.isbn.Or(book.isbn),
          publicationYear := p.publicationYear.Or(book.publicationYear),
          publisher := p.publisher.Or(book.publisher),
          totalCopies := p.totalCopies.Or(book.totalCopies),
          availableCopies := p.availableCopies.Or(book.availableCopies),
          categoryId := p.categoryId.Or(book.categoryId))
  }

  // ---------------------------------------------------------------------
  // What each handler does to the tables
  // ---------------------------------------------------------------------

  function CreateBookSpec(t: Tables, p: BookCreate): Result<Committed<(BookId, Book)>> {
    match ResolveAuthors(t.authors, p.authorIds)
    case Err(e) => Err(e)
    case Ok(authors) =>
      var id := t.nextBookId;
      var book := Book(p.title, p.isbn, p.publicationYear, p.publisher,
                       p.totalCopies, p.totalCopies, p.categoryId, authors);
      Ok(Committed(t.(books := t.books[id := book], nextBookId := id + 1), (id, book)))
  }

  function UpdateBookSpec(t: Tables, bookId: BookId, p: BookUpdate): Result<Committed<Book>> {
    if bookId !in t.books then Err(BookNotFound)
    else
      var patched := ApplyBookUpdate(t.books[bookId], p);
      var authors := if p.authorIds.Some? then ResolveAuthors(t.authors, p.authorIds.value)
                     else Ok(patched.authors);
      match authors
      case Err(e) => Err(e)
      case Ok(list) =>
        var updated := patched.(authors := list);
        Ok(Committed(t.(books := t.books[bookId := updated]), updated))
  }

  function DeleteBookSpec(t: Tables, bookId: BookId): Result<Committed<()>> {
    if bookId !in t.books then Err(BookNotFound)
    else Ok(Committed(t.(books := t.books - {bookId}), ()))
  }

  // ---------------------------------------------------------------------
  // The handlers
  // ---------------------------------------------------------------------

  /** Look each author id up in turn, appending it to the list or failing on the first missing one. */
  method CollectAuthors(db: Store, ids: seq<AuthorId>) returns (r: Result<seq<AuthorId>>)
    ensures r == ResolveAuthors(db.authors, ids)
  {
    var authors: seq<AuthorId> := [];
    var i := 0;
    while i < |ids|
      invariant 0 <= i <= |ids|
      invariant authors == ids[..i]
      invariant forall j :: 0 <= j < i ==> ids[j] in db.authors
    {
      if ids[i] !in db.authors {
        return Err(AuthorNotFound(ids[i]));
      }
      authors := authors + [ids[i]];
      i := i + 1;
    }
    assert ids[..i] == ids;
    r := Ok(authors);
  }

  /** Add a book whose available copies start at its total copies. */
  method CreateBook(db: Store, p: BookCreate) returns (r: Result<(BookId, Book)>)
    modifies db
    ensures Persisted(old(db.Snapshot()), db.Snapshot(), r, CreateBookSpec(old(db.Snapshot()), p))
  {
    var authors := CollectAuthors(db, p.authorIds);
    if authors.Err? {
      return Err(authors.error);
    }
    var book := Book(p.title, p.isbn, p.publicationYear, p.publisher,
                     p.totalCopies, p.totalCopies, p.categoryId, authors.value);
    var id := db.nextBookId;
    db.books := db.books[id := book];
    db.nextBookId := id + 1;
    r := Ok((id, book));
  }

  /** Look a book up by id. */
  method ReadBook(db: Store, bookId: BookId) returns (r: Result<Book>)
    ensures r.Err? <==> bookId !in db.books
    ensures r.Err? ==> r.error == BookNotFound
    ensures r.Ok? ==> r.value == db.books[bookId]
  {
    if bookId !in db.books {
      return Err(BookNotFound);
    }
    r := Ok(db.books[bookId]);
  }

  /** Write the supplied fields over the book, then replace its authors if a list is given. */
  method UpdateBook(db: Store, bookId: BookId, p: BookUpdate) returns (r: Result<Book>)
    modifies db
    ensures Persisted(old(db.Snapshot()), db.Snapshot(), r, UpdateBookSpec(old(db.Snapshot()), bookId, p))
  {
    if bookId !in db.books {
      return Err(BookNotFound);
    }
    var book := db.books[bookId];
    if p.title.Set? { book := book.(title := p.title.value); }
    if p.isbn.Set? { book := book.(isbn := p.isbn.value); }
    if p.publicationYear.Set? { book := book.(publicationYear := p.publicationYear.value); }
    if p.publisher.Set? { book := book.(publisher := p.publisher.value); }
    if p.totalCopies.Set? { book := book.(totalCopies := p.totalCopies.value); }
    if p.availableCopies.Set? { book := book.(availableCopies := p.availableCopies.value); }
    if p.categoryId.Set? { book := book.(categoryId := p.categoryId.value); }
    if p.authorIds.Some? {
      var authors := CollectAuthors(db, p.authorIds.value);
      if authors.Err? {
        return Err(authors.error);
      }
      book := book.(authors := authors.value);
    }
    db.books := db.books[bookId := book];
    r := Ok(book);
  }

  /** Remove a book. */
  method DeleteBook(db: Store, bookId: BookId) returns (r: Result<()>)
    modifies db
    ensures Persisted(old(db.Snapshot()), db.Snapshot(), r, DeleteBookSpec(old(db.Snapshot()), bookId))
  {
    if bookId !in db.books {
      return Err(BookNotFound);
    }
    db.books := db.books - {bookId};
    r := Ok(());
  }
}
