/**
 * The current SQLite backend's database object (`SQLiteUniversalDatabase`
 * in src/androidMain/.../database/SQLiteDatabase.kt): the `closed` flag,
 * the two transaction kinds and the write observers. The connection, the
 * block run inside the transaction and the engine are outside the model:
 * the block's outcome is a parameter, what the pool and each engine
 * request throw is a parameter, and the engine requests are recorded in
 * order.
 */
module SqliteDatabase {
  import opened Wrappers
  import opened WriteObservers

  /** The engine requests a transaction makes. */
  datatype Request =
    | BeginTransactionDeferred
    | BeginTransactionImmediate
    | BeginTransactionExclusive
    | SetTransactionSuccessful
    | EndTransaction

  /**
   * What `transaction`/`writeTransaction` do: return `Result.success`,
   * return `Result.failure` (the database is closed, or the block, the
   * pool or the engine threw), or throw `IllegalArgumentException` for a
   * table outside the schema.
   */
  datatype TransactionResult<R, E> =
    | Success(value: R)
    | Failure(error: TransactionError<E>)
    | ThrowsTableNotInSchema

  datatype TransactionError<E> = DatabaseClosed | Thrown(error: E)

  /**
   * What throws on the way: obtaining the connection (the pool, or the
   * open helper in the older backend), and each engine request of the
   * transaction. `None` where nothing throws.
   */
  datatype Faults<E> = Faults(obtain: Option<E>, begin: Option<E>, setSuccessful: Option<E>, end: Option<E>)

  predicate Faultless<E>(faults: Faults<E>)
  {
    faults.obtain.None? && faults.begin.None? && faults.setSuccessful.None? && faults.end.None?
  }

  /** The transaction is committed: success was marked, and neither the mark nor the end threw. */
  predicate Commits<E>(log: seq<Request>, faults: Faults<E>)
  {
    SetTransactionSuccessful in log && faults.setSuccessful.None? && faults.end.None?
  }

  predicate IsBegin(request: Request)
  {
    request.BeginTransactionDeferred? || request.BeginTransactionImmediate? || request.BeginTransactionExclusive?
  }

  /** The throw the `finally` lets out: the end's own, or else the one from the body. */
  function Rethrown<E>(end: Option<E>, body: E): E
  {
    if end.Some? then end.value else body
  }

  /**
   * `withConnection { try { begin; block; setTransactionSuccessful } finally
   * { endTransaction } }` under `runCatching`: the result and the requests
   * made. The end runs whatever the try body threw, and a throw of the end
   * replaces the body's.
   */
  function TransactionOutcome<R, E>(begin: Request, faults: Faults<E>, block: Result<R, E>): (r: (TransactionResult<R, E>, seq<Request>))
    requires IsBegin(begin)
    ensures r.0.Success? <==> Faultless(faults) && block.Ok?
    ensures r.0.Success? <==> Commits(r.1, faults)
    ensures r.0.Success? ==> r.0.value == block.value
    ensures r.0 != ThrowsTableNotInSchema && r.0 != Failure(DatabaseClosed)
    ensures faults.obtain.Some? ==> r.0 == Failure(Thrown(faults.obtain.value)) && r.1 == []
    ensures faults.obtain.None? ==> |r.1| >= 2 && r.1[0] == begin && r.1[|r.1| - 1] == EndTransaction
    ensures faults.obtain.None? && faults.end.Some? ==> r.0 == Failure(Thrown(faults.end.value))
    ensures faults.obtain.None? && faults.end.None? && faults.begin.None? && block.Err? ==>
      r.0 == Failure(Thrown(block.error))
  {
    if faults.obtain.Some? then (Failure(Thrown(faults.obtain.value)), [])
    else if faults.begin.Some? then
      (Failure(Thrown(Rethrown(faults.end, faults.begin.value))), [begin, EndTransaction])
    else if block.Err? then
      (Failure(Thrown(Rethrown(faults.end, block.error))), [begin, EndTransaction])
    else if faults.setSuccessful.Some? then
      (Failure(Thrown(Rethrown(faults.end, faults.setSuccessful.value))), [begin, SetTransactionSuccessful, EndTransaction])
    else if faults.end.Some? then
      (Failure(Thrown(faults.end.value)), [begin, SetTransactionSuccessful, EndTransaction])
    else
      (Success(block.value), [begin, SetTransactionSuccessful, EndTransaction])
  }

  /** Every used table is a table of the schema. */
  predicate InSchema<T(==)>(usedTables: seq<T>, schemaTables: seq<T>)
  {
    forall i :: 0 <= i < |usedTables| ==> usedTables[i] in schemaTables
  }

  class Database<T(==)> {
    const schemaTables: seq<T>
    var closed: bool
    const observers: ObserverRegistry<T>

    ghost predicate Valid()
      reads this, observers, observers.Observers()
    {
      observers.Valid()
    }

    constructor (schemaTables: seq<T>)
      ensures Valid() && fresh(observers)
      ensures this.schemaTables == schemaTables && !closed
      ensures observers.tableObservers == map[] && observers.lastObserverTrigger == 0
    {
      this.schemaTables := schemaTables;
      closed := false;
      observers := new ObserverRegistry();
    }

    /**
     * `usedTables.any { it !in schema.tables }`: the scan for a table the
     * schema does not have.
     */
    method AllInSchema(usedTables: seq<T>) returns (r: bool)
      ensures r <==> InSchema(usedTables, schemaTables)
    {
      r := true;
      for i := 0 to |usedTables|
        invariant r <==> InSchema(usedTables[..i], schemaTables)
      {
        if usedTables[i] !in schemaTables {
          r := false;
          return;
        }
      }
    }

    /**
     * The body both transaction kinds share once the checks pass: obtain a
     * connection, begin, run the block, mark success, and end the
     * transaction in `finally` whatever happened; any throw becomes the
     * failure `runCatching` returns.
     */
    static method RunInTransaction<R, E>(begin: Request, faults: Faults<E>, block: Result<R, E>)
      returns (r: TransactionResult<R, E>, log: seq<Request>)
      requires IsBegin(begin)
      ensures (r, log) == TransactionOutcome(begin, faults, block)
    {
      if faults.obtain.Some? {
        r, log := Failure(Thrown(faults.obtain.value)), [];
        return;
      }
      // try
      var thrown: Option<E> := None;
      log := [begin];
      if faults.begin.Some? {
        thrown := faults.begin;
      } else if block.Err? {
        thrown := Some(block.error);
      } else {
        log := log + [SetTransactionSuccessful];
        thrown := faults.setSuccessful;
      }
      // finally
      log := log + [EndTransaction];
      if faults.end.Some? {
        thrown := faults.end;
      }
      if thrown.Some? {
        r := Failure(Thrown(thrown.value));
      } else {
        r := Success(block.value);
      }
      assert faults.begin.None? && block.Ok? ==> log == [begin, SetTransactionSuccessful, EndTransaction];
      assert faults.begin.Some? || block.Err? ==> log == [begin, EndTransaction];
      assert r == TransactionOutcome(begin, faults, block).0;
    }

    /**
     * `transaction`: a closed database fails without touching the engine; a
     * table outside the schema throws; otherwise a deferred transaction
     * runs the block, and succeeds exactly when it commits.
     */
    method Transaction<R, E>(usedTables: seq<T>, faults: Faults<E>, block: Result<R, E>)
      returns (r: TransactionResult<R, E>, log: seq<Request>)
      ensures closed ==> r == Failure(DatabaseClosed) && log == []
      ensures !closed && !InSchema(usedTables, schemaTables) ==> r == ThrowsTableNotInSchema && log == []
      ensures !closed && InSchema(usedTables, schemaTables) ==> (r, log) == TransactionOutcome(BeginTransactionDeferred, faults, block)
      ensures r.Success? <==> !closed && InSchema(usedTables, schemaTables) && Faultless(faults) && block.Ok?
    {
      if closed {
        return Failure(DatabaseClosed), [];
      }
      var known := AllInSchema(usedTables);
      if !known {
        return ThrowsTableNotInSchema, [];
      }
      r, log := RunInTransaction(BeginTransactionDeferred, faults, block);
    }

    /**
     * `writeTransaction`: as `transaction`, in an immediate transaction;
     * after a committed one, every observer registered on a used table is
     * triggered once. Nothing is triggered when the write fails, whether
     * the block, the pool or the engine threw.
     */
    method WriteTransaction<R, E>(usedTables: seq<T>, faults: Faults<E>, block: Result<R, E>)
      returns (r: TransactionResult<R, E>, log: seq<Request>, ghost fired: seq<WriteObserver>)
      requires Valid()
      modifies observers, observers.Observers()
      ensures Valid()
      ensures closed ==> r == Failure(DatabaseClosed) && log == []
      ensures !closed && !InSchema(usedTables, schemaTables) ==> r == ThrowsTableNotInSchema && log == []
      ensures !closed && InSchema(usedTables, schemaTables) ==> (r, log) == TransactionOutcome(BeginTransactionImmediate, faults, block)
      ensures r.Success? <==> !closed && InSchema(usedTables, schemaTables) && Faultless(faults) && block.Ok?
      ensures observers.tableObservers == old(observers.tableObservers)
      ensures r.Success? ==>
        && observers.lastObserverTrigger == old(observers.lastObserverTrigger) + 1
        && (forall o :: o in fired <==> o in old(observers.RegisteredOn(usedTables)))
        && (forall i, j :: 0 <= i < j < |fired| ==> fired[i] != fired[j])
        && (forall o :: o in old(observers.Observers()) ==>
              o.signalled == (old(o.signalled) || o in old(observers.RegisteredOn(usedTables))))
      ensures !r.Success? ==> fired == [] && unchanged(observers) && unchanged(old(observers.Observers()))
    {
      fired := [];
      if closed {
        return Failure(DatabaseClosed), [], [];
      }
      var known := AllInSchema(usedTables);
      if !known {
        return ThrowsTableNotInSchema, [], [];
      }
      r, log := RunInTransaction(BeginTransactionImmediate, faults, block);
      if r.Success? {
        fired := observers.NotifyWrite(usedTables);
      }
    }

    /**
     * `observeDatabaseWrites(scope, tables)`: a new observer, registered on
     * every table unless the database is closed.
     */
    method ObserveDatabaseWrites(intoTables: seq<T>) returns (o: WriteObserver)
      requires Valid()
      modifies observers
      ensures Valid() && fresh(o) && !o.signalled
      ensures closed ==> unchanged(observers)
      ensures !closed ==>
        && observers.lastObserverTrigger == old(observers.lastObserverTrigger)
        && observers.tableObservers.Keys == old(observers.tableObservers.Keys) + Elements(intoTables)
        && AddedPerTable(old(observers.tableObservers), observers.tableObservers, intoTables, o)
    {
      o := new WriteObserver();
      if closed {
        return;
      }
      observers.Register(intoTables, o);
    }

    /** `close`: every later transaction fails. */
    method Close()
      modifies this
      ensures closed
    {
      closed := true;
    }
  }
}
