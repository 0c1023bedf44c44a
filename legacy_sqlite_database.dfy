/**
 * The older SQLite backend's database object (`SQLiteUniversalDatabase` in
 * src/androidMain/.../ud/SQLiteUniversalDatabase.kt): the `closed` flag and
 * its two transaction kinds. Unlike the current backend it checks no
 * table against the schema, reads without any SQL transaction, and writes
 * in an exclusive transaction begun outside the `try`. Its write observers
 * are the same code as the current ones, so it reuses `ObserverRegistry`.
 * The open helper, the block and the engine are parameters, as in
 * `SqliteDatabase`.
 */
module LegacySqliteDatabase {
  import opened Wrappers
  import opened WriteObservers
  import opened SqliteDatabase

  /**
   * `runCatching { block(SQLiteTransaction(dbHelper.readableDatabase, ...)) }`:
   * `obtain` is what `readableDatabase` throws.
   */
  function ReadOutcome<R, E>(obtain: Option<E>, block: Result<R, E>): (r: TransactionResult<R, E>)
    ensures r.Success? <==> obtain.None? && block.Ok?
    ensures r.Success? ==> r.value == block.value
    ensures obtain.Some? ==> r == Failure(Thrown(obtain.value))
    ensures obtain.None? && block.Err? ==> r == Failure(Thrown(block.error))
  {
    if obtain.Some? then Failure(Thrown(obtain.value))
    else if block.Err? then Failure(Thrown(block.error))
    else Success(block.value)
  }

  /**
   * `sqlTransaction` under `runCatching`, once `writableDatabase` is had:
   * `beginTransaction()` comes before the `try`, so a begin that throws is
   * never ended; past it, the transaction behaves as the current one.
   */
  function SqlTransactionOutcome<R, E>(faults: Faults<E>, block: Result<R, E>): (r: (TransactionResult<R, E>, seq<Request>))
    ensures r.0.Success? <==> Faultless(faults) && block.Ok?
    ensures r.0.Success? <==> Commits(r.1, faults)
    ensures r.0.Success? ==> r.0.value == block.value
    ensures faults.obtain.Some? ==> r.0 == Failure(Thrown(faults.obtain.value)) && r.1 == []
    ensures faults.obtain.None? && faults.begin.Some? ==>
      r.0 == Failure(Thrown(faults.begin.value)) && r.1 == [BeginTransactionExclusive]
    ensures faults.obtain.None? && faults.begin.None? ==>
      |r.1| >= 2 && r.1[0] == BeginTransactionExclusive && r.1[|r.1| - 1] == EndTransaction
  {
    if faults.obtain.Some? then (Failure(Thrown(faults.obtain.value)), [])
    else if faults.begin.Some? then (Failure(Thrown(faults.begin.value)), [BeginTransactionExclusive])
    else TransactionOutcome(BeginTransactionExclusive, faults, block)
  }

  /** A begin that throws: the current backend still ends the transaction, the older one does not. */
  lemma BeginFailureEnded<R, E>(faults: Faults<E>, block: Result<R, E>)
    requires faults.obtain.None? && faults.begin.Some?
    ensures EndTransaction !in SqlTransactionOutcome(faults, block).1
    ensures EndTransaction in TransactionOutcome(BeginTransactionImmediate, faults, block).1
  {
    var current := TransactionOutcome(BeginTransactionImmediate, faults, block).1;
    assert current[|current| - 1] == EndTransaction;
  }

  class LegacyDatabase<T(==)> {
    var closed: bool
    const observers: ObserverRegistry<T>

    ghost predicate Valid()
      reads this, observers, observers.Observers()
    {
      observers.Valid()
    }

    constructor ()
      ensures Valid() && fresh(observers)
      ensures !closed
      ensures observers.tableObservers == map[] && observers.lastObserverTrigger == 0
    {
      closed := false;
      observers := new ObserverRegistry();
    }

    /**
     * `transaction`: a closed database fails; otherwise the block runs on
     * the readable database with no SQL transaction at all. No table is
     * checked against the schema.
     */
    method Transaction<R, E>(obtain: Option<E>, block: Result<R, E>) returns (r: TransactionResult<R, E>, log: seq<Request>)
      ensures log == []
      ensures closed ==> r == Failure(DatabaseClosed)
      ensures !closed ==> r == ReadOutcome(obtain, block)
      ensures r.Success? <==> !closed && obtain.None? && block.Ok?
    {
      log := [];
      if closed {
        return Failure(DatabaseClosed), log;
      }
      if obtain.Some? {
        return Failure(Thrown(obtain.value)), log;
      }
      match block
      case Ok(v) => r := Success(v);
      case Err(e) => r := Failure(Thrown(e));
    }

    /** `sqlTransaction`: begin, then `try { block; setTransactionSuccessful } finally { endTransaction }`. */
    static method SqlTransaction<R, E>(faults: Faults<E>, block: Result<R, E>) returns (r: TransactionResult<R, E>, log: seq<Request>)
      ensures (r, log) == SqlTransactionOutcome(faults, block)
    {
      if faults.obtain.Some? {
        r, log := Failure(Thrown(faults.obtain.value)), [];
        return;
      }
      log := [BeginTransactionExclusive];
      if faults.begin.Some? {
        r := Failure(Thrown(faults.begin.value));
        return;
      }
      // try
      var thrown: Option<E> := None;
      if block.Err? {
        thrown := Some(block.error);
      } else {
        log := log + [SetTransactionSuccessful];
        thrown := faults.setSuccessful;
      }
      // finally
      log := log + [EndTransaction];
      if faults.end.Some? {
        thrown := faults.end;
      }
      if thrown.Some? {
        r := Failure(Thrown(thrown.value));
      } else {
        r := Success(block.value);
      }
      assert block.Ok? ==> log == [BeginTransactionExclusive, SetTransactionSuccessful, EndTransaction];
      assert block.Err? ==> log == [BeginTransactionExclusive, EndTransaction];
      assert r == SqlTransactionOutcome(faults, block).0;
    }

    /**
     * `writeTransaction`: a closed database fails; otherwise the block runs
     * in `sqlTransaction` on the writable database, and a committed write
     * triggers each observer registered on a used table once. A failed one
     * triggers nothing.
     */
    method WriteTransaction<R, E>(usedTables: seq<T>, faults: Faults<E>, block: Result<R, E>)
      returns (r: TransactionResult<R, E>, log: seq<Request>, ghost fired: seq<WriteObserver>)
      requires Valid()
      modifies observers, observers.Observers()
      ensures Valid()
      ensures closed ==> r == Failure(DatabaseClosed) && log == []
      ensures !closed ==> (r, log) == SqlTransactionOutcome(faults, block)
      ensures r.Success? <==> !closed && Faultless(faults) && block.Ok?
      ensures observers.tableObservers == old(observers.tableObservers)
      ensures r.Success? ==>
        && observers.lastObserverTrigger == old(observers.lastObserverTrigger) + 1
        && (forall o :: o in fired <==> o in old(observers.RegisteredOn(usedTables)))
        && (forall o :: o in old(observers.Observers()) ==>
              o.signalled == (old(o.signalled) || o in old(observers.RegisteredOn(usedTables))))
      ensures !r.Success? ==> fired == [] && unchanged(observers) && unchanged(old(observers.Observers()))
    {
      fired := [];
      if closed {
        return Failure(DatabaseClosed), [], [];
      }
      r, log := SqlTransaction(faults, block);
      if r.Success? {
        fired := observers.NotifyWrite(usedTables);
      }
    }

    /** `close`: every later transaction fails. */
    method Close()
      modifies this
      ensures closed
    {
      closed := true;
    }
  }
}
