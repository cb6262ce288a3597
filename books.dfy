/** BookModel of internal/data/books.go: the books repository over the
    shared store, with an optional transaction scope on every write. */
module Books {
  import opened Errors
  import opened Schema
  import opened Ordering
  import opened Storage

  function BookId(b: Book): int { b.id }

  /** The key of `ORDER BY title ASC`. */
  function Title(b: Book): string { b.title }

  class BookModel {
    const db: Database

    constructor (db: Database)
      ensures this.db == db
    {
      this.db := db;
    }

    /** Insert: store the four data fields under a fresh id taken from the
        serial sequence, and write that id back into the caller's record
        (returned as `written`); the caller's own id is ignored, and so is
        whether `book.authorId` names an existing author. With a scope the
        row is buffered there; the sequence advances either way. */
    method Insert(book: Book, tx: Tx?, fault: Option<Fault>) returns (written: Book, r: Outcome)
      requires db.Valid()
      requires tx != null ==> tx.db == db && tx.Valid()
      modifies db, tx
      ensures db.Valid() && (tx != null ==> tx.Valid() && tx.state == old(tx.state))
      ensures r == old(Dispatch(tx, fault))
      ensures db.nextAuthorId == old(db.nextAuthorId)
      ensures r.Fail? ==> written == book && unchanged(db) && (tx != null ==> unchanged(tx))
      ensures r.Pass? ==>
                && written == book.(id := old(db.nextBookId))
                && db.nextBookId == old(db.nextBookId) + 1
                && 1 <= written.id && written.id !in old(Visible(db, tx).books)
                && written.id !in old(db.tables.books)
                && Visible(db, tx) == old(Visible(db, tx)).(books := old(Visible(db, tx).books)[written.id := written])
      ensures r.Pass? && tx != null ==> db.tables == old(db.tables) && tx.pending == old(tx.pending) + [PutBook(written)]
    {
      written := book;
      if tx == null {
        if fault.Some? {
          return written, Fail(Storage(fault.value));
        }
        written := book.(id := db.nextBookId);
        db.tables := db.tables.(books := db.tables.books[written.id := written]);
        db.nextBookId := db.nextBookId + 1;
      } else {
        if tx.state != Open {
          return written, Fail(TxDone);
        }
        if fault.Some? {
          return written, Fail(Storage(fault.value));
        }
        ViewBounded(tx);
        written := book.(id := db.nextBookId);
        tx.pending := tx.pending + [PutBook(written)];
        db.nextBookId := db.nextBookId + 1;
      }
      r := Pass;
    }

    /** Get: guarded lookup in the committed table. */
    function Get(id: int, fault: Option<Fault>): (r: Result<Book>)
      reads db
      requires db.Valid()
      ensures id < 1 ==> r == Failure(RecordNotFound)
      ensures 1 <= id && fault.Some? ==> r == Failure(Storage(fault.value))
      ensures 1 <= id && fault.None? ==> (r.Success? <==> id in db.tables.books)
      ensures r.Failure? && fault.None? ==> r.error == RecordNotFound
      ensures r.Success? ==> r.value.id == id && id in db.tables.books && r.value == db.tables.books[id]
    {
      if id < 1 then Failure(RecordNotFound)
      else if fault.Some? then Failure(Storage(fault.value))
      else if id !in db.tables.books then Failure(RecordNotFound)
      else Success(db.tables.books[id])
    }

    /** Update: overwrite every data field of the row whose id is
        `book.id`. There is no guard on the id, and a missing row is
        reported as the driver's NoRows, not as RecordNotFound. */
    method Update(book: Book, tx: Tx?, fault: Option<Fault>) returns (r: Outcome)
      requires db.Valid()
      requires tx != null ==> tx.db == db && tx.Valid()
      modifies db, tx
      ensures db.Valid() && (tx != null ==> tx.Valid() && tx.state == old(tx.state))
      ensures db.nextBookId == old(db.nextBookId) && db.nextAuthorId == old(db.nextAuthorId)
      ensures old(Dispatch(tx, fault)).Fail? ==> r == old(Dispatch(tx, fault))
      ensures old(Dispatch(tx, fault)).Pass? ==>
                r == if book.id in old(Visible(db, tx).books) then Pass else Fail(NoRows)
      ensures book.id < 1 ==> r.Fail?
      ensures r.Fail? ==> unchanged(db) && (tx != null ==> unchanged(tx))
      ensures r.Pass? ==>
                Visible(db, tx) == old(Visible(db, tx)).(books := old(Visible(db, tx).books)[book.id := book])
      ensures r.Pass? && tx != null ==> db.tables == old(db.tables) && tx.pending == old(tx.pending) + [PutBook(book)]
    {
      if tx == null {
        if fault.Some? {
          return Fail(Storage(fault.value));
        }
        if book.id !in db.tables.books {
          return Fail(NoRows);
        }
        db.tables := db.tables.(books := db.tables.books[book.id := book]);
      } else {
        if tx.state != Open {
          return Fail(TxDone);
        }
        if fault.Some? {
          return Fail(Storage(fault.value));
        }
        ViewBounded(tx);
        if book.id !in tx.View().books {
          return Fail(NoRows);
        }
        tx.pending := tx.pending + [PutBook(book)];
      }
      r := Pass;
    }

    /** Delete: remove the row with this id. An id below 1 and a delete
        that affects no row are both RecordNotFound. */
    method Delete(id: int, tx: Tx?, fault: Option<Fault>) returns (r: Outcome)
      requires db.Valid()
      requires tx != null ==> tx.db == db && tx.Valid()
      modifies db, tx
      ensures db.Valid() && (tx != null ==> tx.Valid() && tx.state == old(tx.state))
      ensures db.nextBookId == old(db.nextBookId) && db.nextAuthorId == old(db.nextAuthorId)
      ensures id < 1 ==> r == Fail(RecordNotFound)
      ensures 1 <= id && old(Dispatch(tx, fault)).Fail? ==> r == old(Dispatch(tx, fault))
      ensures 1 <= id && old(Dispatch(tx, fault)).Pass? ==>
                r == if id in old(Visible(db, tx).books) then Pass else Fail(RecordNotFound)
      ensures r.Fail? ==> unchanged(db) && (tx != null ==> unchanged(tx))
      ensures r.Pass? ==>
                Visible(db, tx) == old(Visible(db, tx)).(books := old(Visible(db, tx).books) - {id})
      ensures r.Pass? && tx != null ==> db.tables == old(db.tables) && tx.pending == old(tx.pending) + [DropBook(id)]
    {
      if id < 1 {
        return Fail(RecordNotFound);
      }
      if tx == null {
        if fault.Some? {
          return Fail(Storage(fault.value));
        }
        if id !in db.tables.books {
          return Fail(RecordNotFound);
        }
        db.tables := db.tables.(books := db.tables.books - {id});
      } else {
        if tx.state != Open {
          return Fail(TxDone);
        }
        if fault.Some? {
          return Fail(Storage(fault.value));
        }
        if id !in tx.View().books {
          return Fail(RecordNotFound);
        }
        tx.pending := tx.pending + [DropBook(id)];
      }
      r := Pass;
    }

    /** GetAll: copy the rows of `SELECT ... ORDER BY title ASC` into a
        fresh, never-nil list. `response` is what the cursor delivers: the
        table's rows in that order, some of which may fail to scan. Any
        failure (of the query, of a scan, of the cursor at the end) gives
        no list at all. */
    method GetAll(response: seq<Fetch<Book>>, queryFault: Option<Fault>, streamFault: Option<Fault>)
      returns (r: Result<seq<Book>>)
      requires db.Valid()
      requires IsListing(db.tables.books, Fetched(response), BookId, Title)
      ensures r.Success? <==> queryFault.None? && FirstScanFault(response).None? && streamFault.None?
      ensures r.Success? ==> r.value == Fetched(response)
      ensures r.Success? ==> IsListing(db.tables.books, r.value, BookId, Title)
      ensures r.Success? && db.tables.books == map[] ==> r.value == []
      ensures r.Failure? ==> r.error == Storage(
                if queryFault.Some? then queryFault.value
                else if FirstScanFault(response).Some? then FirstScanFault(response).value
                else streamFault.value)
    {
      if queryFault.Some? {
        return Failure(Storage(queryFault.value));
      }
      var books: seq<Book> := [];
      var i := 0;
      while i < |response|
        invariant 0 <= i <= |response|
        invariant forall j :: 0 <= j < i ==> response[j].Row?
        invariant books == Fetched(response[..i])
      {
        assert response[..i + 1][..i] == response[..i];
        match response[i]
        case ScanFailed(f) =>
          return Failure(Storage(f));
        case Row(book) =>
          books := books + [book];
        i := i + 1;
      }
      if streamFault.Some? {
        return Failure(Storage(streamFault.value));
      }
      assert response[..i] == response;
      EmptyListing(books, BookId, Title);
      r := Success(books);
    }
  }
}
