/** AuthorModel of internal/data/authors.go: the authors repository over
    the shared store, with an optional transaction scope on every write. */
module Authors {
  import opened Errors
  import opened Schema
  import opened Ordering
  import opened Storage

  function AuthorId(a: Author): int { a.id }

  /** The key of `ORDER BY last_name ASC`. */
  function LastName(a: Author): string { a.lastName }

  class AuthorModel {
    const db: Database

    constructor (db: Database)
      ensures this.db == db
    {
      this.db := db;
    }

    /** Insert: store the four data fields under a fresh id taken from the
        serial sequence, and write that id back into the caller's record
        (returned as `written`); the caller's own id is ignored. With a
        scope the row is buffered there; the sequence advances either way. */
    method Insert(author: Author, tx: Tx?, fault: Option<Fault>) returns (written: Author, r: Outcome)
      requires db.Valid()
      requires tx != null ==> tx.db == db && tx.Valid()
      modifies db, tx
      ensures db.Valid() && (tx != null ==> tx.Valid() && tx.state == old(tx.state))
      ensures r == old(Dispatch(tx, fault))
      ensures db.nextBookId == old(db.nextBookId)
      ensures r.Fail? ==> written == author && unchanged(db) && (tx != null ==> unchanged(tx))
      ensures r.Pass? ==>
                && written == author.(id := old(db.nextAuthorId))
                && db.nextAuthorId == old(db.nextAuthorId) + 1
                && 1 <= written.id && written.id !in old(Visible(db, tx).authors)
                && written.id !in old(db.tables.authors)
                && Visible(db, tx) == old(Visible(db, tx)).(authors := old(Visible(db, tx).authors)[written.id := written])
      ensures r.Pass? && tx != null ==> db.tables == old(db.tables) && tx.pending == old(tx.pending) + [PutAuthor(written)]
    {
      written := author;
      if tx == null {
        if fault.Some? {
          return written, Fail(Storage(fault.value));
        }
        written := author.(id := db.nextAuthorId);
        db.tables := db.tables.(authors := db.tables.authors[written.id := written]);
        db.nextAuthorId := db.nextAuthorId + 1;
      } else {
        if tx.state != Open {
          return written, Fail(TxDone);
        }
        if fault.Some? {
          return written, Fail(Storage(fault.value));
        }
        ViewBounded(tx);
        written := author.(id := db.nextAuthorId);
        tx.pending := tx.pending + [PutAuthor(written)];
        db.nextAuthorId := db.nextAuthorId + 1;
      }
      r := Pass;
    }

    /** Get: guarded lookup in the committed table. */
    function Get(id: int, fault: Option<Fault>): (r: Result<Author>)
      reads db
      requires db.Valid()
      ensures id < 1 ==> r == Failure(RecordNotFound)
      ensures 1 <= id && fault.Some? ==> r == Failure(Storage(fault.value))
      ensures 1 <= id && fault.None? ==> (r.Success? <==> id in db.tables.authors)
      ensures r.Failure? && fault.None? ==> r.error == RecordNotFound
      ensures r.Success? ==> r.value.id == id && id in db.tables.authors && r.value == db.tables.authors[id]
    {
      if id < 1 then Failure(RecordNotFound)
      else if fault.Some? then Failure(Storage(fault.value))
      else if id !in db.tables.authors then Failure(RecordNotFound)
      else Success(db.tables.authors[id])
    }

    /** Update: overwrite every data field of the row whose id is
        `author.id`. There is no guard on the id, and a missing row is
        reported as the driver's NoRows, not as RecordNotFound. */
    method Update(author: Author, tx: Tx?, fault: Option<Fault>) returns (r: Outcome)
      requires db.Valid()
      requires tx != null ==> tx.db == db && tx.Valid()
      modifies db, tx
      ensures db.Valid() && (tx != null ==> tx.Valid() && tx.state == old(tx.state))
      ensures db.nextAuthorId == old(db.nextAuthorId) && db.nextBookId == old(db.nextBookId)
      ensures old(Dispatch(tx, fault)).Fail? ==> r == old(Dispatch(tx, fault))
      ensures old(Dispatch(tx, fault)).Pass? ==>
                r == if author.id in old(Visible(db, tx).authors) then Pass else Fail(NoRows)
      ensures author.id < 1 ==> r.Fail?
      ensures r.Fail? ==> unchanged(db) && (tx != null ==> unchanged(tx))
      ensures r.Pass? ==>
                Visible(db, tx) == old(Visible(db, tx)).(authors := old(Visible(db, tx).authors)[author.id := author])
      ensures r.Pass? && tx != null ==> db.tables == old(db.tables) && tx.pending == old(tx.pending) + [PutAuthor(author)]
    {
      if tx == null {
        if fault.Some? {
          return Fail(Storage(fault.value));
        }
        if author.id !in db.tables.authors {
          return Fail(NoRows);
        }
        db.tables := db.tables.(authors := db.tables.authors[author.id := author]);
      } else {
        if tx.state != Open {
          return Fail(TxDone);
        }
        if fault.Some? {
          return Fail(Storage(fault.value));
        }
        ViewBounded(tx);
        if author.id !in tx.View().authors {
          return Fail(NoRows);
        }
        tx.pending := tx.pending + [PutAuthor(author)];
      }
      r := Pass;
    }

    /** Delete: remove the row with this id. An id below 1 and a delete
        that affects no row are both RecordNotFound. */
    method Delete(id: int, tx: Tx?, fault: Option<Fault>) returns (r: Outcome)
      requires db.Valid()
      requires tx != null ==> tx.db == db && tx.Valid()
      modifies db, tx
      ensures db.Valid() && (tx != null ==> tx.Valid() && tx.state == old(tx.state))
      ensures db.nextAuthorId == old(db.nextAuthorId) && db.nextBookId == old(db.nextBookId)
      ensures id < 1 ==> r == Fail(RecordNotFound)
      ensures 1 <= id && old(Dispatch(tx, fault)).Fail? ==> r == old(Dispatch(tx, fault))
      ensures 1 <= id && old(Dispatch(tx, fault)).Pass? ==>
                r == if id in old(Visible(db, tx).authors) then Pass else Fail(RecordNotFound)
      ensures r.Fail? ==> unchanged(db) && (tx != null ==> unchanged(tx))
      ensures r.Pass? ==>
                Visible(db, tx) == old(Visible(db, tx)).(authors := old(Visible(db, tx).authors) - {id})
      ensures r.Pass? && tx != null ==> db.tables == old(db.tables) && tx.pending == old(tx.pending) + [DropAuthor(id)]
    {
      if id < 1 {
        return Fail(RecordNotFound);
      }
      if tx == null {
        if fault.Some? {
          return Fail(Storage(fault.value));
        }
        if id !in db.tables.authors {
          return Fail(RecordNotFound);
        }
        db.tables := db.tables.(authors := db.tables.authors - {id});
      } else {
        if tx.state != Open {
          return Fail(TxDone);
        }
        if fault.Some? {
          return Fail(Storage(fault.value));
        }
        if id !in tx.View().authors {
          return Fail(RecordNotFound);
        }
        tx.pending := tx.pending + [DropAuthor(id)];
      }
      r := Pass;
    }

    /** GetAll: copy the rows of `SELECT ... ORDER BY last_name ASC` into a
        fresh, never-nil list. `response` is what the cursor delivers: the
        table's rows in that order, some of which may fail to scan. Any
        failure (of the query, of a scan, of the cursor at the end) gives
        no list at all. */
    method GetAll(response: seq<Fetch<Author>>, queryFault: Option<Fault>, streamFault: Option<Fault>)
      returns (r: Result<seq<Author>>)
      requires db.Valid()
      requires IsListing(db.tables.authors, Fetched(response), AuthorId, LastName)
      ensures r.Success? <==> queryFault.None? && FirstScanFault(response).None? && streamFault.None?
      ensures r.Success? ==> r.value == Fetched(response)
      ensures r.Success? ==> IsListing(db.tables.authors, r.value, AuthorId, LastName)
      ensures r.Success? && db.tables.authors == map[] ==> r.value == []
      ensures r.Failure? ==> r.error == Storage(
                if queryFault.Some? then queryFault.value
                else if FirstScanFault(response).Some? then FirstScanFault(response).value
                else streamFault.value)
    {
      if queryFault.Some? {
        return Failure(Storage(queryFault.value));
      }
      var authors: seq<Author> := [];
      var i := 0;
      while i < |response|
        invariant 0 <= i <= |response|
        invariant forall j :: 0 <= j < i ==> response[j].Row?
        invariant authors == Fetched(response[..i])
      {
        assert response[..i + 1][..i] == response[..i];
        match response[i]
        case ScanFailed(f) =>
          return Failure(Storage(f));
        case Row(author) =>
          authors := authors + [author];
        i := i + 1;
      }
      if streamFault.Some? {
        return Failure(Storage(streamFault.value));
      }
      assert response[..i] == response;
      EmptyListing(authors, AuthorId, LastName);
      r := Success(authors);
    }
  }
}
