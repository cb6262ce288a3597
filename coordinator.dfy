/** updateBookAndAuthorHandler of cmd/api/books_and_authors.go: one author
    update and one book update inside a single transaction scope, finalised
    by commit when both succeeded and by rollback otherwise. */
module Coordinator {
  import opened Errors
  import opened Schema
  import opened Storage
  import opened Authors
  import opened Books

  /** The decoded request body: a book sub-record and an author sub-record. */
  datatype Payload = Payload(book: Book, author: Author)

  /** Why the handler returned before opening a scope. */
  datatype Rejection = Undecodable | BadAuthorId | BadBookId

  /** Storage outcomes of the statements the handler issues. */
  datatype Faults = Faults(create: Option<Fault>, author: Option<Fault>, book: Option<Fault>, commit: Option<Fault>)

  /** A call the finaliser makes on the transaction manager.
      CommitOnNilScope and RollbackOnNilScope are Commit and Rollback invoked
      with a nil scope: in Go each dereferences the nil *sql.Tx and panics. */
  datatype Call =
    | CommitCall(result: Outcome)
    | RollbackCall(result: Outcome)
    | CommitOnNilScope
    | RollbackOnNilScope

  /** What one run of the handler did. */
  datatype Report =
    | Rejected(why: Rejection)
    | Ran(create: Outcome, authorUpdate: Option<Outcome>, bookUpdate: Option<Outcome>, finalise: seq<Call>)

  /** A path id that parsed and is at least 1. */
  predicate ValidId(path: Option<int>)
  {
    path.Some? && 1 <= path.value
  }

  /** The committed tables with both rows of the composite update written. */
  function BothWritten(t: Tables, author: Author, book: Book): Tables
  {
    Tables(t.authors[author.id := author], t.books[book.id := book])
  }

  /** The run ended with a successful commit. */
  predicate CommitSucceeded(report: Report)
  {
    report.Ran? && report.finalise == [CommitCall(Pass)]
  }

  class Application {
    const db: Database
    const authors: AuthorModel
    const books: BookModel
    const transactions: Transactions

    ghost predicate Valid()
      reads db
    {
      authors.db == db && books.db == db && transactions.db == db && db.Valid()
    }

    constructor (db: Database)
      requires db.Valid()
      ensures this.db == db && Valid()
    {
      this.db := db;
      authors := new AuthorModel(db);
      books := new BookModel(db);
      transactions := new Transactions(db);
    }

    /** The deferred finaliser exactly as the source writes it: commit when
        `err` is nil and store the commit's result in `err`; then, if `err`
        is not nil, roll back and store that result in `err`. Without a
        scope (a failed Create) either call is made on the nil scope and
        panics; a failed commit is followed by a rollback of the scope the
        commit already finalised. */
    method FinaliseAsWritten(tx: Tx?, err: Outcome, commitFault: Option<Fault>) returns (errOut: Outcome, calls: seq<Call>)
      requires Valid()
      requires tx != null ==> tx.db == db && tx.Valid()
      modifies db, tx
      ensures Valid() && (tx != null ==> tx.Valid())
      ensures db.nextAuthorId == old(db.nextAuthorId) && db.nextBookId == old(db.nextBookId)
      ensures tx == null ==>
                calls == [if err.Pass? then CommitOnNilScope else RollbackOnNilScope] && unchanged(db)
      ensures tx != null && err.Fail? && old(tx.state) == Open ==>
                calls == [RollbackCall(Pass)] && errOut == Pass && db.tables == old(db.tables)
      ensures tx != null && err.Pass? && old(tx.state) == Open && commitFault.Some? ==>
                calls == [CommitCall(Fail(Storage(commitFault.value))), RollbackCall(Fail(TxDone))]
                && errOut == Fail(TxDone) && db.tables == old(db.tables)
      ensures tx != null && err.Pass? && old(tx.state) == Open && commitFault.None? ==>
                calls == [CommitCall(Pass)] && errOut == Pass
                && db.tables == Apply(old(db.tables), old(tx.pending))
    {
      errOut := err;
      calls := [];
      if errOut.Pass? {
        if tx == null {
          calls := calls + [CommitOnNilScope];
          return;
        }
        errOut := transactions.Commit(tx, commitFault);
        calls := calls + [CommitCall(errOut)];
      }
      if errOut.Fail? {
        if tx == null {
          calls := calls + [RollbackOnNilScope];
          return;
        }
        errOut := transactions.Rollback(tx);
        calls := calls + [RollbackCall(errOut)];
      }
    }

    /** The finaliser as intended: a scope that was never created is left
        alone, and an open scope is finalised by exactly one call, a commit
        when `err` is nil and a rollback otherwise. The original error (or
        the commit's) is what the handler ends with. */
    method Finalise(tx: Tx?, err: Outcome, commitFault: Option<Fault>) returns (errOut: Outcome, calls: seq<Call>)
      requires Valid()
      requires err.Pass? ==> tx != null
      requires tx != null ==> tx.db == db && tx.Valid()
      modifies db, tx
      ensures Valid() && (tx != null ==> tx.Valid())
      ensures db.nextAuthorId == old(db.nextAuthorId) && db.nextBookId == old(db.nextBookId)
      ensures tx == null ==> calls == [] && errOut == err && unchanged(db)
      ensures tx != null ==>
                calls == if err.Pass? then [CommitCall(errOut)]
                         else [RollbackCall(if old(tx.state) == Open then Pass else Fail(TxDone))]
      ensures tx != null && old(tx.state) == Open ==> tx.state != Open && tx.pending == []
      ensures err.Fail? ==> errOut == err
      ensures tx != null && old(tx.state) == Open ==>
                (errOut.Pass? <==> err.Pass? && commitFault.None?)
                && db.tables == if errOut.Pass? then Apply(old(db.tables), old(tx.pending)) else old(db.tables)
    {
      errOut := err;
      calls := [];
      if tx == null {
        return;
      }
      if err.Pass? {
        errOut := transactions.Commit(tx, commitFault);
        calls := [CommitCall(errOut)];
      } else {
        var r := transactions.Rollback(tx);
        calls := [RollbackCall(r)];
      }
    }

    /** The two updates of the handler, in order: the author first, the
        book only if the author update succeeded. With a scope both are
        buffered in it; with the nil scope each autocommits on its own. */
    method UpdateAuthorThenBook(author: Author, book: Book, tx: Tx?, authorFault: Option<Fault>, bookFault: Option<Fault>)
      returns (err: Outcome, authorUpdate: Outcome, bookUpdate: Option<Outcome>)
      requires Valid()
      requires tx != null ==> tx.db == db && tx.Valid() && tx.state == Open && tx.pending == []
      modifies db, tx
      ensures Valid() && (tx != null ==> tx.Valid() && tx.state == Open)
      ensures db.nextAuthorId == old(db.nextAuthorId) && db.nextBookId == old(db.nextBookId)
      ensures authorUpdate.Pass? <==> authorFault.None? && author.id in old(Visible(db, tx).authors)
      ensures bookUpdate.Some? <==> authorUpdate.Pass?
      ensures bookUpdate == Some(Pass) <==>
                authorUpdate.Pass? && bookFault.None? && book.id in old(Visible(db, tx).books)
      ensures err == if bookUpdate.Some? then bookUpdate.value else authorUpdate
      ensures Visible(db, tx) == Tables(
                if authorUpdate.Pass? then old(Visible(db, tx).authors)[author.id := author] else old(Visible(db, tx).authors),
                if bookUpdate == Some(Pass) then old(Visible(db, tx).books)[book.id := book] else old(Visible(db, tx).books))
      ensures tx != null ==>
                db.tables == old(db.tables)
                && tx.pending == (if bookUpdate == Some(Pass) then [PutAuthor(author), PutBook(book)]
                                  else if authorUpdate.Pass? then [PutAuthor(author)] else [])
    {
      authorUpdate := authors.Update(author, tx, authorFault);
      err := authorUpdate;
      bookUpdate := None;
      if err.Pass? {
        err := books.Update(book, tx, bookFault);
        bookUpdate := Some(err);
      }
    }

    /** The composite handler as the source writes it. The body and both
        path ids are validated before anything else; then a scope is
        requested, but its error is never looked at: `err` is overwritten by
        the author update (id from the path `author_id`), and the book update
        (id from the path `book_id`) runs only if that succeeded. After a
        failed Create both updates run with the nil scope, so each one
        autocommits on its own, and the finaliser then panics on the nil
        scope. The author row can thus be written while the book row is not. */
    method UpdateBookAndAuthorAsWritten(input: Option<Payload>, authorPath: Option<int>, bookPath: Option<int>, faults: Faults)
      returns (report: Report)
      requires Valid()
      modifies db
      ensures Valid()
      ensures db.nextAuthorId == old(db.nextAuthorId) && db.nextBookId == old(db.nextBookId)
      ensures report.Rejected? <==> input.None? || !ValidId(authorPath) || !ValidId(bookPath)
      ensures report.Rejected? ==>
                report.why == (if input.None? then Undecodable else if !ValidId(authorPath) then BadAuthorId else BadBookId)
                && db.tables == old(db.tables)
      ensures report.Ran? ==> report.create == (if faults.create.None? then Pass else Fail(Storage(faults.create.value)))
      ensures report.Ran? ==> report.authorUpdate.Some?
      ensures report.Ran? ==>
                (report.authorUpdate == Some(Pass) <==> faults.author.None? && authorPath.value in old(db.tables.authors))
      ensures report.Ran? ==>
                (report.bookUpdate.Some? <==> report.authorUpdate == Some(Pass))
                && (report.bookUpdate == Some(Pass) <==>
                      report.authorUpdate == Some(Pass) && faults.book.None? && bookPath.value in old(db.tables.books))
      // Without a scope: each successful update is committed on its own, then the finaliser panics.
      ensures report.Ran? && report.create.Fail? ==>
                && report.finalise == [if report.bookUpdate == Some(Pass) then CommitOnNilScope else RollbackOnNilScope]
                && db.tables == Tables(
                     if report.authorUpdate == Some(Pass)
                     then old(db.tables.authors)[authorPath.value := input.value.author.(id := authorPath.value)]
                     else old(db.tables.authors),
                     if report.bookUpdate == Some(Pass)
                     then old(db.tables.books)[bookPath.value := input.value.book.(id := bookPath.value)]
                     else old(db.tables.books))
      // The atomicity breach: the author row written, the book row not.
      ensures report.Ran? && report.create.Fail? && report.authorUpdate == Some(Pass) && report.bookUpdate != Some(Pass) ==>
                && db.tables.authors == old(db.tables.authors)[authorPath.value := input.value.author.(id := authorPath.value)]
                && db.tables.books == old(db.tables.books)
      // With a scope: all or nothing, but a failed commit is followed by a second finalisation.
      ensures report.Ran? && report.create.Pass? ==>
                db.tables == if CommitSucceeded(report)
                             then BothWritten(old(db.tables), input.value.author.(id := authorPath.value),
                                              input.value.book.(id := bookPath.value))
                             else old(db.tables)
      ensures report.Ran? && report.create.Pass? ==>
                (CommitSucceeded(report) <==> report.bookUpdate == Some(Pass) && faults.commit.None?)
      ensures report.Ran? && report.create.Pass? && report.bookUpdate == Some(Pass) && faults.commit.Some? ==>
                report.finalise == [CommitCall(Fail(Storage(faults.commit.value))), RollbackCall(Fail(TxDone))]
    {
      if input.None? {
        return Rejected(Undecodable);
      }
      if authorPath.None? || authorPath.value < 1 {
        return Rejected(BadAuthorId);
      }
      if bookPath.None? || bookPath.value < 1 {
        return Rejected(BadBookId);
      }
      var payload := input.value;
      ghost var before := db.tables;
      var tx, err := transactions.Create(faults.create);
      var create := err;
      var author := Author(authorPath.value, payload.author.firstName, payload.author.lastName,
                           payload.author.bio, payload.author.dateOfBirth);
      var book := Book(bookPath.value, payload.book.title, payload.book.authorId,
                       payload.book.year, payload.book.isbn);
      var authorUpdate, bookUpdate;
      err, authorUpdate, bookUpdate := UpdateAuthorThenBook(author, book, tx, faults.author, faults.book);
      if tx != null && bookUpdate == Some(Pass) {
        assert Apply(before, tx.pending) == BothWritten(before, author, book);
      }
      var _, calls := FinaliseAsWritten(tx, err, faults.commit);
      report := Ran(create, Some(authorUpdate), bookUpdate, calls);
    }

    /** The composite handler as intended: validate the body and both path
        ids before anything else, open a scope and stop if that fails,
        update the author (id from the path `author_id`), then the book (id
        from the path `book_id`) only if the author update succeeded, and
        finalise the scope once. The committed tables end up with both rows
        written or with neither. */
    method UpdateBookAndAuthor(input: Option<Payload>, authorPath: Option<int>, bookPath: Option<int>, faults: Faults)
      returns (report: Report)
      requires Valid()
      modifies db
      ensures Valid()
      ensures db.nextAuthorId == old(db.nextAuthorId) && db.nextBookId == old(db.nextBookId)
      ensures report.Rejected? <==> input.None? || !ValidId(authorPath) || !ValidId(bookPath)
      ensures report.Rejected? ==>
                report.why == (if input.None? then Undecodable else if !ValidId(authorPath) then BadAuthorId else BadBookId)
      ensures report.Ran? ==> report.create == (if faults.create.None? then Pass else Fail(Storage(faults.create.value)))
      ensures report.Ran? && report.create.Fail? ==> report.authorUpdate.None? && report.finalise == []
      ensures report.Ran? && report.create.Pass? ==> report.authorUpdate.Some?
      ensures report.Ran? && report.bookUpdate.Some? ==> report.authorUpdate == Some(Pass)
      ensures report.Ran? && report.create.Pass? ==>
                |report.finalise| == 1
                && (report.finalise[0].CommitCall? <==> report.authorUpdate == Some(Pass) && report.bookUpdate == Some(Pass))
      ensures CommitSucceeded(report) ==>
                && report.Ran? && faults == Faults(None, None, None, None)
                && authorPath.value in old(db.tables.authors) && bookPath.value in old(db.tables.books)
      ensures report.Ran? && faults == Faults(None, None, None, None)
                && authorPath.value in old(db.tables.authors) && bookPath.value in old(db.tables.books)
              ==> CommitSucceeded(report)
      ensures CommitSucceeded(report) ==>
                db.tables == BothWritten(old(db.tables), input.value.author.(id := authorPath.value),
                                         input.value.book.(id := bookPath.value))
      ensures !CommitSucceeded(report) ==> db.tables == old(db.tables)
    {
      if input.None? {
        return Rejected(Undecodable);
      }
      if authorPath.None? || authorPath.value < 1 {
        return Rejected(BadAuthorId);
      }
      if bookPath.None? || bookPath.value < 1 {
        return Rejected(BadBookId);
      }
      var payload := input.value;
      ghost var before := db.tables;
      var tx, err := transactions.Create(faults.create);
      var create := err;
      var authorUpdate: Option<Outcome> := None;
      var bookUpdate: Option<Outcome> := None;
      if tx != null {
        var author := Author(authorPath.value, payload.author.firstName, payload.author.lastName,
                             payload.author.bio, payload.author.dateOfBirth);
        var book := Book(bookPath.value, payload.book.title, payload.book.authorId,
                         payload.book.year, payload.book.isbn);
        var authorResult;
        err, authorResult, bookUpdate := UpdateAuthorThenBook(author, book, tx, faults.author, faults.book);
        authorUpdate := Some(authorResult);
        if bookUpdate == Some(Pass) {
          assert Apply(before, tx.pending) == BothWritten(before, author, book);
        }
      }
      var _, calls := Finalise(tx, err, faults.commit);
      report := Ran(create, authorUpdate, bookUpdate, calls);
    }
  }
}
