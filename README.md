# Authors and books: repositories and the composite update, in Dafny

This project models the persistence core of a small library service that
stores authors and books in a relational database:

- the two repositories, `AuthorModel` and `BookModel`. Each one offers
  Insert, Get, Update, Delete and GetAll over its table. Every write takes an
  optional transaction scope. With no scope (nil) the statement runs on the
  pool and autocommits. With a scope it runs inside that scope, and the
  repository never commits or rolls it back;
- the transaction manager (`Create`, `Commit`, `Rollback`), as an abstract
  scope state machine: open, then committed or rolled back;
- the composite handler `updateBookAndAuthorHandler`. It validates its
  inputs and requests a scope. It updates the author, then the book if the
  author update succeeded. A deferred finaliser then commits or rolls back.
  The handler is modelled twice: as written, and corrected (see Findings).

The store is a `Storage.Database` object. It holds the committed tables
(`Schema.Tables`: a map from positive id to row, per table) and the next
values of the two serial sequences. A scope is a `Storage.Tx` object, and a
nil `*sql.Tx` is `null`. A scope buffers its writes in `pending`. Statements
issued through it see `View()`: the committed tables with the pending
writes replayed. `Commit` publishes all pending writes at once; `Rollback`
drops them. Ids come from the serial sequence, which is not transactional,
so an insert through a scope that is later rolled back still uses up its
id. Each statement's storage outcome is a parameter. That covers the
three-second deadline and any other backend error. A fault leaves the state
unchanged. GetAll gets the database's cursor as a parameter: the rows of
`ORDER BY ... ASC` with possible scan failures. It requires that cursor to be
a sorted listing of the table. `Ordering.ListingExists` proves that such a
listing exists for every table.

Files: `errors.dfy` (error values), `schema.dfy` (records, tables, buffered
writes), `ordering.dfy` (the sort order and listings), `storage.dfy`
(database, scopes, transaction manager, cursor), `authors.dfy`, `books.dfy`,
`coordinator.dfy`, `scenarios.dfy` (client runs that combine operations).

Three behaviours of the code are modelled as they are:
- the handler decodes the body before it parses the path ids;
- Update has no `id < 1` guard. It reports a missing row as the driver's
  no-rows error, not as `ErrRecordNotFound`;
- the handler never checks the error of `Create`. After a failed `Create`
  both updates run without a scope and each one autocommits. The finaliser
  then calls `Commit` or `Rollback` on the nil scope
  (`Coordinator.Application.UpdateBookAndAuthorAsWritten`, see Findings).

## Model

| member | source | states |
|---|---|---|
| `Authors.AuthorModel.Insert` | internal/data/authors.go:25-43 | the caller's id is ignored; on success the row holds the four data fields under a fresh positive id that was in neither the committed table nor the scope's view, and that id is written back; autocommit writes the table, a scope only buffers the row; the scope is never finalised; a fault or a finalised scope changes nothing |
| `Authors.AuthorModel.Get` | internal/data/authors.go:46-80 | `id < 1` gives RecordNotFound whatever the store would say; an absent row gives RecordNotFound; a storage error is returned unchanged; success returns exactly the stored row, whose id is the one asked for |
| `Authors.AuthorModel.Update` | internal/data/authors.go:83-115 | overwrites all fields of exactly the row with `author.id` in the tables the statement sees, every other row unchanged; a missing row (including any `id < 1`) gives NoRows and changes nothing; with a scope the committed tables are untouched |
| `Authors.AuthorModel.Delete` | internal/data/authors.go:118-163 | `id < 1` gives RecordNotFound before any statement; zero rows affected gives RecordNotFound; otherwise exactly that row is removed; scope writes only buffer a drop |
| `Authors.AuthorModel.GetAll` | internal/data/authors.go:166-206 | succeeds iff the query, every scan and the cursor succeed; then returns every row of the table exactly once, ordered by last name ascending, and the empty sequence for an empty table; otherwise no list and the first fault |
| `Books.BookModel.Insert` | internal/data/books.go:25-43 | as for authors, storing title, author id, year and ISBN; success does not depend on whether `authorId` names an author |
| `Books.BookModel.Get` | internal/data/books.go:46-80 | `id < 1` and an absent row give RecordNotFound; storage errors pass through; success returns the stored row with that id |
| `Books.BookModel.Update` | internal/data/books.go:83-115 | overwrites title, year, author id and ISBN of exactly the row with `book.id`; a missing row gives NoRows and changes nothing; no `id < 1` guard |
| `Books.BookModel.Delete` | internal/data/books.go:118-160 | `id < 1` or zero rows affected give RecordNotFound; otherwise exactly that row is removed |
| `Books.BookModel.GetAll` | internal/data/books.go:163-203 | every row exactly once, ordered by title ascending, never absent (empty for an empty table); any fault gives no list |
| `Storage.Transactions.Create` | internal/data/transactions.go:9-17 | a fault gives no scope (nil) and the error; otherwise a fresh open scope with nothing pending, whose view is the committed tables |
| `Storage.Transactions.Commit` | internal/data/transactions.go:19-21 | an open scope's pending writes are applied to the committed tables all at once; a rejected commit finalises the scope with nothing applied; a finalised scope gives TxDone and nothing changes |
| `Storage.Transactions.Rollback` | internal/data/transactions.go:23-25 | an open scope is finalised with its writes discarded; a finalised scope gives TxDone |
| `Coordinator.Application.UpdateAuthorThenBook` | cmd/api/books_and_authors.go:51-75 | the author update runs first, with the id from `author_id`. The book update, with the id from `book_id`, runs iff the author update succeeded. Each succeeds iff there is no fault and its row is visible. With a scope both writes are only buffered there; without one, each successful update is applied to the committed table on its own |
| `Coordinator.Application.UpdateBookAndAuthorAsWritten` | cmd/api/books_and_authors.go:11-75 | the handler as written. A bad body or path id returns before `Create`. After a failed `Create` the author update still runs, and both updates autocommit one by one. The finaliser then calls `Commit` on the nil scope if both succeeded and `Rollback` on it otherwise (both panic). So the author row can be written while the book row is not. With a scope the tables end all-or-nothing, and a failed commit is followed by a rollback that returns TxDone |
| `Coordinator.Application.UpdateBookAndAuthor` | cmd/api/books_and_authors.go:11-75 | the corrected handler: it stops when `Create` fails. A bad body or path id returns before any scope is created. The author record takes its id from `author_id` and the book record from `book_id`. The book update runs only after a successful author update. An opened scope is finalised once, by commit exactly when both updates succeeded. The committed tables end with both writes (exactly when the commit succeeds) or neither |
| `Coordinator.Application.FinaliseAsWritten` | cmd/api/books_and_authors.go:36-49 | the deferred closure as written: commit when `err` is nil, then roll back when `err` is non-nil. On a nil scope this is `Commit` (when `err` is nil) or `Rollback` (otherwise), and either panics. On a scope whose commit just failed, the rollback returns TxDone |
| `Coordinator.Application.Finalise` | cmd/api/books_and_authors.go:35-49 | the corrected finaliser: no call without a scope; otherwise exactly one call, commit iff `err` is nil, leaving the scope finalised; the tables gain the pending writes iff the commit succeeded |
| `Ordering.ListingExists` | internal/data/authors.go:167-170 | for every table there is a sequence holding each row once in ascending key order, so the ordered query always has an answer |
| `Ordering.EmptyListing` | internal/data/authors.go:182-205 | the only listing of an empty table is the empty sequence |
| `Ordering.SmallerKeyFirst` | internal/data/books.go:164-167 | in any listing a row with a strictly smaller key comes before one with a larger key |
| `Scenarios.AlphaListedBeforeZeta` | internal/data/authors.go:167-170 | authors with last names "Zeta" and "Alpha" are listed "Alpha" first |
| `Scenarios.InsertThenGetAuthor` | internal/data/authors.go:25-80 | Insert without a scope followed by Get of the returned id gives the inserted record with the assigned id |
| `Scenarios.InsertThenGetBook` | internal/data/books.go:25-80 | the same round trip for books |
| `Scenarios.ScopedInsertRolledBack` | internal/data/authors.go:36-41 | a row inserted through a scope cannot be read with Get while the scope is open, nor after it is rolled back; the committed tables end as they began |
| `Scenarios.CompositeThenGet` | cmd/api/books_and_authors.go:35-75 | after the corrected composite handler, Get of both ids shows both new records if the commit succeeded, and both old records otherwise |

## Left out

- CompositeThenGet: states the both-or-neither read-back for the corrected handler `UpdateBookAndAuthor` only. The handler as written does not keep it after a failed `Create`; `UpdateBookAndAuthorAsWritten` states what it does instead (the author row written, the book row unchanged).
- HTTP, JSON and logging are not modelled: request decoding, writing the response status and headers, and the log lines. The handler writes its 200 status (cmd/api/books_and_authors.go:84) before the deferred finaliser runs, so a failed commit is not reflected in the response. An early return sets no status at all.
- `strconv.Atoi` and JSON decoding are library code. The model takes their results as parameters: an optional decoded payload and optional parsed ids.
- The `context.WithTimeout` deadlines are not modelled as clocks. A timeout is the `DeadlineExceeded` storage fault.
- SQL text, the driver and `RETURNING` are modelled only by their effect on the abstract tables. `RowsAffected` failures count as storage faults.
- PostgreSQL puts a scope into an aborted state after a failed statement. The model does not track that state. The handler never commits after a failure anyway.
- A rollback of an open scope always succeeds. Driver-level rollback failures are not modelled.
- The panic of `Commit` or `Rollback` on a nil scope is recorded as a call (`CommitOnNilScope`, `RollbackOnNilScope`) and changes no state. The unwinding of the request goroutine and the server's recovery from the panic are not modelled.
- NULL columns (`bio`, `year`) are not modelled. A row that fails to scan is a scan fault in the cursor.
- The sort order is code-point lexicographic order on strings. The database's collation is not modelled. Rows with equal keys may come in any order.
- Integer widths are not modelled: `int64` ids and the serial column's range. Ids are unbounded integers.
- Concurrency is not modelled: the connection pool, other requests running while a scope is open, and the pending-write replay racing them. Each run is sequential.
- Update writes the returned id back into the caller's record. That id always equals the id it was given, so the model does not return it.
- internal/data/models.go: its interfaces lack the scope parameter, and the handler uses a `Translations` field it does not declare. The model follows the repository methods as defined. `Coordinator.Application` is the wiring of one database, both repositories and the transaction manager.
- cmd/api/main.go, cmd/api/server.go, cmd/api/middleware.go and the single-entity handlers in cmd/api/authors.go and cmd/api/books.go are not part of this model. They are configuration, routing, a pass-through middleware and status mapping.

## Findings

| source | as written | input that shows it | evidently intended | confidence | as-written member | corrected member |
|---|---|---|---|---|---|---|
| cmd/api/books_and_authors.go:35-49 | when `Create` fails, `tx` is nil, and `err` is overwritten by the updates at :58 and :71 before the deferred closure runs. The closure then calls `Commit(nil)` if both updates succeeded and `Rollback(nil)` otherwise. Either call dereferences the nil `*sql.Tx` and panics | a valid body and valid ids, with `Create` failing because the pool cannot give a connection | no finalisation when no scope was opened | high; not executed | `Coordinator.Application.FinaliseAsWritten` | `Coordinator.Application.Finalise` |
| cmd/api/books_and_authors.go:35-71 | the error of `Create` is never checked, so after a failed `Create` both updates run with the nil scope, and each autocommits on its own. A successful author update followed by a failed book update leaves the author row written and the book row unchanged, which breaks the all-or-nothing promise | a valid body and ids, both rows present, `Create` failing, then the book update failing (a fault or a missing book id) | stop when `Create` fails, so that no update runs outside a scope | high; not executed | `Coordinator.Application.UpdateBookAndAuthorAsWritten` | `Coordinator.Application.UpdateBookAndAuthor` |
| cmd/api/books_and_authors.go:37-48 | when `Commit` fails, `err` is overwritten with the commit error, and `Rollback` is then called on the scope that `Commit` already finalised. It returns `ErrTxDone`, which replaces the commit error in `err` | both updates succeed and the backend rejects the commit | finalise the scope exactly once | high; not executed | `Coordinator.Application.FinaliseAsWritten` | `Coordinator.Application.Finalise` |
