/** Client runs that tie several operations together: what a caller of the
    repositories and of the composite handler can rely on. */
module Scenarios {
  import opened Errors
  import opened Schema
  import opened Ordering
  import opened Storage
  import opened Authors
  import opened Books
  import opened Coordinator

  /** Inserting an author outside any scope and reading it back yields the
      inserted record under the id the store assigned. */
  method InsertThenGetAuthor(m: AuthorModel, author: Author) returns (written: Author, got: Result<Author>)
    requires m.db.Valid()
    modifies m.db
    ensures written.id >= 1 && written == author.(id := written.id)
    ensures got == Success(written)
  {
    var r;
    written, r := m.Insert(author, null, None);
    got := m.Get(written.id, None);
  }

  /** The same round trip for books. */
  method InsertThenGetBook(m: BookModel, book: Book) returns (written: Book, got: Result<Book>)
    requires m.db.Valid()
    modifies m.db
    ensures written.id >= 1 && written == book.(id := written.id)
    ensures got == Success(written)
  {
    var r;
    written, r := m.Insert(book, null, None);
    got := m.Get(written.id, None);
  }

  /** A scope's writes are invisible to Get until the scope commits, and a
      rollback leaves the committed table as it was. */
  method ScopedInsertRolledBack(app: Application, author: Author)
    returns (written: Author, whileOpen: Result<Author>, afterRollback: Result<Author>)
    requires app.Valid()
    modifies app.db
    ensures written.id >= 1 && written == author.(id := written.id)
    ensures whileOpen == Failure(RecordNotFound) && afterRollback == Failure(RecordNotFound)
    ensures app.db.tables == old(app.db.tables)
  {
    var tx, _ := app.transactions.Create(None);
    var inserted;
    written, inserted := app.authors.Insert(author, tx, None);
    whileOpen := app.authors.Get(written.id, None);
    var rolledBack := app.transactions.Rollback(tx);
    afterRollback := app.authors.Get(written.id, None);
  }

  /** After a successful composite update both rows read back with the new
      values; after any other run both read back as before. */
  method CompositeThenGet(app: Application, input: Payload, authorId: int, bookId: int, faults: Faults)
    returns (report: Report, gotAuthor: Result<Author>, gotBook: Result<Book>)
    requires app.Valid() && 1 <= authorId && 1 <= bookId
    requires authorId in app.db.tables.authors && bookId in app.db.tables.books
    modifies app.db
    ensures CommitSucceeded(report) ==>
              gotAuthor == Success(input.author.(id := authorId)) && gotBook == Success(input.book.(id := bookId))
    ensures !CommitSucceeded(report) ==>
              gotAuthor == Success(old(app.db.tables.authors[authorId])) && gotBook == Success(old(app.db.tables.books[bookId]))
  {
    report := app.UpdateBookAndAuthor(Some(input), Some(authorId), Some(bookId), faults);
    gotAuthor := app.authors.Get(authorId, None);
    gotBook := app.books.Get(bookId, None);
  }

  /** Two authors stored as "Zeta" then "Alpha" are listed "Alpha" first. */
  lemma AlphaListedBeforeZeta(table: map<int, Author>, rows: seq<Author>, i: nat, j: nat)
    requires IsListing(table, rows, AuthorId, LastName)
    requires i < |rows| && j < |rows| && rows[i].lastName == "Alpha" && rows[j].lastName == "Zeta"
    ensures i < j
  {
    SmallerKeyFirst(table, rows, AuthorId, LastName, i, j);
  }
}
