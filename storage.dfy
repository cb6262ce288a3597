/** The relational backend as the repositories see it: the committed
    tables, the serial sequences that hand out ids, transaction scopes
    with their pending writes, and the transaction manager of
    internal/data/transactions.go. */
module Storage {
  import opened Errors
  import opened Schema

  /** The shared store behind the connection pool. */
  class Database {
    var tables: Tables
    /** Next values of the authors and books serial sequences. */
    var nextAuthorId: int
    var nextBookId: int

    ghost predicate Valid()
      reads this
    {
      1 <= nextAuthorId && 1 <= nextBookId && Bounded(tables, nextAuthorId, nextBookId)
    }

    constructor ()
      ensures Valid()
      ensures tables == Tables(map[], map[]) && nextAuthorId == 1 && nextBookId == 1
    {
      tables := Tables(map[], map[]);
      nextAuthorId := 1;
      nextBookId := 1;
    }
  }

  /** Lifecycle of a transaction scope: finalised exactly once. */
  datatype TxState = Open | Committed | RolledBack

  /** A transaction scope (a non-nil *sql.Tx). Writes issued through it
      wait in `pending` and become visible to other readers only when the
      scope is committed. */
  class Tx {
    const db: Database
    var state: TxState
    var pending: seq<Write>

    ghost predicate Valid()
      reads this, db
    {
      db.Valid() && WritesBounded(pending, db.nextAuthorId, db.nextBookId)
    }

    /** The tables as statements issued through this scope see them. */
    function View(): Tables
      reads this, db
    {
      Apply(db.tables, pending)
    }

    constructor (db: Database)
      requires db.Valid()
      ensures this.db == db && state == Open && pending == []
      ensures Valid() && View() == db.tables
    {
      this.db := db;
      state := Open;
      pending := [];
    }
  }

  /** The tables a statement sees: the committed tables when it runs on
      its own (a nil scope), the scope's view when it runs inside one. */
  function Visible(db: Database, tx: Tx?): Tables
    reads db, tx
    requires tx != null ==> tx.db == db
  {
    if tx == null then db.tables else tx.View()
  }

  /** Whether a statement gets as far as the store: a finalised scope is
      refused by the driver (TxDone), and a fault ends the statement. */
  function Dispatch(tx: Tx?, fault: Option<Fault>): Outcome
    reads tx
  {
    if tx != null && tx.state != Open then Fail(TxDone)
    else if fault.Some? then Fail(Storage(fault.value))
    else Pass
  }

  /** A scope's view of the tables keeps the committed tables' invariant. */
  lemma ViewBounded(tx: Tx)
    requires tx.Valid()
    ensures Bounded(tx.View(), tx.db.nextAuthorId, tx.db.nextBookId)
  {
    ApplyBounded(tx.db.tables, tx.pending, tx.db.nextAuthorId, tx.db.nextBookId);
  }

  /** The transaction manager (Transactions in the source). */
  class Transactions {
    const db: Database

    constructor (db: Database)
      ensures this.db == db
    {
      this.db := db;
    }

    /** Create: begin a scope, or fail when the pool cannot provide one,
        returning no scope (a nil *sql.Tx). */
    method Create(fault: Option<Fault>) returns (tx: Tx?, r: Outcome)
      requires db.Valid()
      ensures r == (if fault.None? then Pass else Fail(Storage(fault.value)))
      ensures tx != null <==> r.Pass?
      ensures tx != null ==> fresh(tx) && tx.db == db && tx.state == Open && tx.pending == []
      ensures tx != null ==> tx.Valid() && tx.View() == db.tables
    {
      if fault.Some? {
        return null, Fail(Storage(fault.value));
      }
      tx := new Tx(db);
      r := Pass;
    }

    /** Commit: publish every pending write at once. A scope that is
        already finalised answers TxDone; a commit the backend rejects
        leaves the scope finalised with none of its writes applied. */
    method Commit(tx: Tx, fault: Option<Fault>) returns (r: Outcome)
      requires tx.db == db && tx.Valid()
      modifies db, tx
      ensures tx.Valid()
      ensures db.nextAuthorId == old(db.nextAuthorId) && db.nextBookId == old(db.nextBookId)
      ensures old(tx.state) != Open ==> r == Fail(TxDone) && unchanged(db, tx)
      ensures old(tx.state) == Open && fault.Some? ==>
                r == Fail(Storage(fault.value)) && tx.state == RolledBack && tx.pending == []
                && db.tables == old(db.tables)
      ensures old(tx.state) == Open && fault.None? ==>
                r == Pass && tx.state == Committed && tx.pending == []
                && db.tables == Apply(old(db.tables), old(tx.pending))
    {
      if tx.state != Open {
        return Fail(TxDone);
      }
      if fault.Some? {
        tx.state, tx.pending := RolledBack, [];
        return Fail(Storage(fault.value));
      }
      ApplyBounded(db.tables, tx.pending, db.nextAuthorId, db.nextBookId);
      db.tables := Apply(db.tables, tx.pending);
      tx.state, tx.pending := Committed, [];
      r := Pass;
    }

    /** Rollback: discard every pending write. Only an already finalised
        scope makes it fail, with TxDone. */
    method Rollback(tx: Tx) returns (r: Outcome)
      requires tx.db == db && tx.Valid()
      modifies tx
      ensures tx.Valid()
      ensures old(tx.state) != Open ==> r == Fail(TxDone) && unchanged(tx)
      ensures old(tx.state) == Open ==> r == Pass && tx.state == RolledBack && tx.pending == []
    {
      if tx.state != Open {
        return Fail(TxDone);
      }
      tx.state, tx.pending := RolledBack, [];
      r := Pass;
    }
  }

  /** One step of a result cursor (rows.Next followed by rows.Scan): a
      scanned row, or a scan that failed. */
  datatype Fetch<R> = Row(row: R) | ScanFailed(fault: Fault)

  /** The rows a cursor delivers, in order. A failed scan contributes no
      row, so GetAll's requirement that these rows list the whole table
      treats a scan failure as an extra cursor step rather than the loss
      of one of the table's rows; either way GetAll returns no list. */
  function Fetched<R>(response: seq<Fetch<R>>): seq<R>
  {
    if response == [] then []
    else Fetched(response[..|response| - 1])
         + (match response[|response| - 1]
            case Row(x) => [x]
            case ScanFailed(_) => [])
  }

  /** The fault of the first failing scan, if any. */
  function FirstScanFault<R>(response: seq<Fetch<R>>): (f: Option<Fault>)
    ensures f.None? <==> forall i :: 0 <= i < |response| ==> response[i].Row?
    ensures f.Some? ==> exists i :: 0 <= i < |response| && response[i] == ScanFailed(f.value)
                                    && forall j :: 0 <= j < i ==> response[j].Row?
  {
    if response == [] then None
    else match response[0]
      case ScanFailed(g) => Some(g)
      case Row(_) =>
        var rest := FirstScanFault(response[1..]);
        assert forall i :: 1 <= i < |response| ==> response[i] == response[1..][i - 1];
        rest
  }
}
