/**
 * Opening a database with the current SQLite backend
 * (`openUniversalDatabase`): read the stored `user_version`, refuse a newer
 * one, and otherwise migrate inside one exclusive transaction. The
 * structural requests, the schema code and the post-migration callbacks
 * are recorded in order as `Migrations.Action`s; the callbacks run inside
 * the transaction, after `user_version` is set and before the transaction
 * is marked successful.
 */
module SqliteOpen {
  import opened Wrappers
  import opened KotlinInts
  import opened Names
  import opened Schemas
  import opened Validation
  import opened Migrations

  /** What a failing request throws: `SQLiteFullException`, or any other `Throwable`. */
  datatype EngineError = DatabaseFull | OtherError

  /** `OpenDBResult` as this backend produces it. */
  datatype OpenResult = Success | NewerVersionExists | OutOfMemory | Failure(error: EngineError)

  /** The request of the plan at position `at` throws `error`. */
  datatype Fault = Fault(at: nat, error: EngineError)

  /** What an open did: the requests made, the result, and whether the migration transaction committed. */
  datatype Opened = Opened(log: seq<Action>, result: OpenResult, committed: bool)

  /** `pragma("PRAGMA user_version")?.toIntOrNull() ?: 0`. */
  function CurrentVersion(userVersion: Option<Int32>): Int32
  {
    if userVersion.Some? then userVersion.value else 0
  }

  function Target(schemas: seq<Schema>): Schema
    requires schemas != []
  {
    schemas[|schemas| - 1]
  }

  /**
   * The structural part of the migration: the fresh creation when the
   * stored version is not in the chain, the step-wise migration from it
   * otherwise.
   */
  function MigrationActions(schemas: seq<Schema>, current: Int32, rows: seq<Option<string>>): seq<Action>
    requires schemas != []
  {
    var from := IndexOfFirst(schemas, current);
    if from < 0 then FreshActions(Target(schemas), current, rows)
    else Stepwise(schemas, from, |schemas| - 1)
  }

  /** The `postMigrationCallbacks` the migration queues, by version. */
  function MigrationCallbacks(schemas: seq<Schema>, current: Int32): seq<Int32>
    requires schemas != []
  {
    var from := IndexOfFirst(schemas, current);
    if from < 0 then FreshCallbacks(Target(schemas))
    else StepwiseCallbacks(schemas, from, |schemas| - 1)
  }

  /** Running the queued callbacks, in queue order. */
  function CallbackRuns(versions: seq<Int32>): (r: seq<Action>)
    ensures |r| == |versions| && forall i :: 0 <= i < |versions| ==> r[i] == RunCallback(versions[i])
  {
    if versions == [] then [] else CallbackRuns(versions[..|versions| - 1]) + [RunCallback(versions[|versions| - 1])]
  }

  /** Every request of an open that nothing makes fail. */
  function OpenPlan(schemas: seq<Schema>, current: Int32, rows: seq<Option<string>>): seq<Action>
    requires schemas != []
  {
    var target := Target(schemas).version;
    [JournalModeWal, ReadUserVersion] +
    if current > target then [CloseConnection]
    else if current == target then []
    else
      [BeginExclusive] + MigrationActions(schemas, current, rows) + [SetUserVersion(target)] +
      CallbackRuns(MigrationCallbacks(schemas, current)) + [SetTransactionSuccessful, EndTransaction]
  }

  /**
   * The open with the engine's answers: the plan runs until the request
   * `fault` names throws. A throw inside the `try` of the migration still
   * runs `endTransaction`, which rolls back; the outer `catch` then closes
   * the connection and reports `OutOfMemory` for a full database and
   * `Failure` for anything else. Without a fault the open succeeds, unless
   * the stored version is newer.
   */
  function Open(schemas: seq<Schema>, userVersion: Option<Int32>, rows: seq<Option<string>>, fault: Option<Fault>): (r: Opened)
    requires schemas != []
    ensures r.committed ==> r.result == Success
    ensures r.result == Success ==> fault.None? || fault.value.at >= |OpenPlan(schemas, CurrentVersion(userVersion), rows)|
    ensures r.result == NewerVersionExists <==>
      (fault.None? || fault.value.at >= |r.log|) && CurrentVersion(userVersion) > Target(schemas).version
  {
    var current := CurrentVersion(userVersion);
    var plan := OpenPlan(schemas, current, rows);
    if fault.Some? && fault.value.at < |plan| then
      var k := fault.value.at;
      var inTransaction := current < Target(schemas).version && 2 < k < |plan| - 1;
      Opened(plan[..k + 1] + (if inTransaction then [EndTransaction] else []) + [CloseConnection],
             if fault.value.error == DatabaseFull then OutOfMemory else Failure(fault.value.error),
             false)
    else
      Opened(plan, if current > Target(schemas).version then NewerVersionExists else Success,
             current < Target(schemas).version)
  }

  /** A migration's plan opens the transaction third and ends it last. */
  lemma MigrationPlanBrackets(schemas: seq<Schema>, current: Int32, rows: seq<Option<string>>)
    requires schemas != [] && current < Target(schemas).version
    ensures var plan := OpenPlan(schemas, current, rows);
      4 < |plan| && plan[2] == BeginExclusive && plan[|plan| - 1] == EndTransaction
  {
  }

  /**
   * A request of the plan that throws: the requests up to it are made, a
   * throw after `beginTransactionExclusive` and before `endTransaction`
   * still ends the transaction, and the connection is closed last. A full
   * database gives `OutOfMemory`, any other throw `Failure`; nothing commits.
   */
  lemma OpenFailure(schemas: seq<Schema>, userVersion: Option<Int32>, rows: seq<Option<string>>, fault: Option<Fault>)
    requires schemas != []
    requires fault.Some? && fault.value.at < |OpenPlan(schemas, CurrentVersion(userVersion), rows)|
    ensures var r := Open(schemas, userVersion, rows, fault);
      var plan := OpenPlan(schemas, CurrentVersion(userVersion), rows);
      var k := fault.value.at;
      && r.result == (if fault.value.error == DatabaseFull then OutOfMemory else Failure(fault.value.error))
      && !r.committed
      && 2 <= |r.log| && r.log[..k + 1] == plan[..k + 1]
      && r.log[|r.log| - 1] == CloseConnection
      && (CurrentVersion(userVersion) < Target(schemas).version ==>
            plan[2] == BeginExclusive && plan[|plan| - 1] == EndTransaction &&
            (2 < k < |plan| - 1 <==> r.log[|r.log| - 2] == EndTransaction && |r.log| == k + 3))
  {
    var current := CurrentVersion(userVersion);
    var plan := OpenPlan(schemas, current, rows);
    var k := fault.value.at;
    var r := Open(schemas, userVersion, rows, fault);
    var inTransaction := current < Target(schemas).version && 2 < k < |plan| - 1;
    var tail := (if inTransaction then [EndTransaction] else []) + [CloseConnection];
    assert r.log == plan[..k + 1] + tail;
    assert r.log[..k + 1] == plan[..k + 1];
    if current < Target(schemas).version {
      MigrationPlanBrackets(schemas, current, rows);
    }
  }

  /**
   * No request of the plan throws: every request is made, an older stored
   * version commits its migration and the open succeeds; a newer one gives
   * `NewerVersionExists` and commits nothing.
   */
  lemma OpenWithoutFault(schemas: seq<Schema>, userVersion: Option<Int32>, rows: seq<Option<string>>, fault: Option<Fault>)
    requires schemas != []
    requires fault.None? || fault.value.at >= |OpenPlan(schemas, CurrentVersion(userVersion), rows)|
    ensures var r := Open(schemas, userVersion, rows, fault);
      && r.log == OpenPlan(schemas, CurrentVersion(userVersion), rows)
      && (r.committed <==> CurrentVersion(userVersion) < Target(schemas).version)
      && (r.result == Success <==> CurrentVersion(userVersion) <= Target(schemas).version)
      && (r.result == NewerVersionExists <==> CurrentVersion(userVersion) > Target(schemas).version)
  {
  }

  // ---------------------------------------------------------------------
  // What an open does to the stored tables

  /** Engine tables only: the names `other` that no table of the model can take. */
  predicate EngineOnly(other: set<string>)
  {
    forall n :: n in other ==> IsEngineTable(n)
  }

  /** Every table of every version has a name `validateName` accepted. */
  ghost predicate NamedTables(schemas: seq<Schema>)
  {
    forall i, t :: 0 <= i < |schemas| && t in schemas[i].tables ==> ValidName(t.name)
  }

  lemma NamedTablesForeign(schemas: seq<Schema>, base: nat, top: nat, other: set<string>)
    requires NamedTables(schemas) && EngineOnly(other) && base <= top < |schemas|
    ensures Foreign(schemas, base, top, other)
  {
    forall i, t | base <= i <= top && t in schemas[i].tables
      ensures t.name !in other
    {
      ValidNameNotEngine(t.name);
    }
  }

  /**
   * When the stored version is in the chain and the stored tables are those
   * of that version (besides the engine's own), the step-wise migration
   * leaves exactly the target's tables, with every create and drop
   * accepted.
   */
  lemma {:induction false} MigrationFromChainReachesTarget(schemas: seq<Schema>, current: Int32, rows: seq<Option<string>>,
                                                           other: set<string>)
    requires ValidSequence(schemas) && NamedTables(schemas) && EngineOnly(other)
    requires IndexOfFirst(schemas, current) >= 0
    ensures Apply(MigrationActions(schemas, current, rows),
                  other + NamesOf(schemas[IndexOfFirst(schemas, current)].tables)) ==
            Some(other + NamesOf(Target(schemas).tables))
  {
    var from, top := IndexOfFirst(schemas, current), |schemas| - 1;
    NamedTablesForeign(schemas, from, top, other);
    ValidSequenceChain(schemas, from, top, other);
    StepwiseReaches(schemas, from, top, other);
  }

  /**
   * When the stored version is not in the chain, the migration wipes every
   * stored table but the engine's own and creates the target's. On a new
   * database (`user_version` 0) nothing is dropped.
   */
  lemma MigrationFromElsewhereRecreates(schemas: seq<Schema>, current: Int32, rows: seq<Option<string>>,
                                        stored: set<string>)
    requires ValidSequence(schemas) && NamedTables(schemas)
    requires IndexOfFirst(schemas, current) < 0
    requires current != 0 ==> Lists(rows, stored)
    requires current == 0 ==> EngineOnly(stored)
    ensures Apply(MigrationActions(schemas, current, rows), stored) ==
            Some((stored - UserTables(stored)) + NamesOf(Target(schemas).tables))
  {
    var target := Target(schemas);
    assert DistinctNames(target.tables);
    assert forall t :: t in target.tables ==> ValidName(t.name);
    if current != 0 {
      FreshReplaces(target, current, rows, stored);
    } else {
      assert UserTables(stored) == {};
      assert stored - UserTables(stored) == stored;
      assert NamesOf(target.tables) !! stored by {
        forall t | t in target.tables
          ensures t.name !in stored
        {
          ValidNameNotEngine(t.name);
        }
      }
      FreshCreates(target, rows, stored);
    }
  }

  /** Any stored version at or above the target makes no structural request. */
  lemma NoMigrationUnlessOlder(schemas: seq<Schema>, userVersion: Option<Int32>, rows: seq<Option<string>>, fault: Option<Fault>)
    requires schemas != [] && CurrentVersion(userVersion) >= Target(schemas).version
    ensures var r := Open(schemas, userVersion, rows, fault);
      && !r.committed
      && Neutral(r.log)
      && BeginExclusive !in r.log
      && (fault.None? ==>
            r.log == [JournalModeWal, ReadUserVersion] +
                     (if CurrentVersion(userVersion) > Target(schemas).version then [CloseConnection] else []))
  {
    var r := Open(schemas, userVersion, rows, fault);
    var plan := OpenPlan(schemas, CurrentVersion(userVersion), rows);
    assert Neutral(plan) && BeginExclusive !in plan;
    forall i | 0 <= i < |r.log|
      ensures r.log[i] != BeginExclusive && !r.log[i].CreateTable? && !r.log[i].DropTable? && !r.log[i].DropStoredTable?
    {
      if i < |plan| && (fault.None? || i <= fault.value.at) {
        assert r.log[i] == plan[i];
      }
    }
  }

  /** The versions whose `migrateFromPrevious` a log runs, in order. */
  function MigrationsRun(log: seq<Action>): seq<Int32>
  {
    if log == [] then []
    else MigrationsRun(log[..|log| - 1]) +
         (if log[|log| - 1].RunMigrateFromPrevious? then [log[|log| - 1].version] else [])
  }

  lemma {:induction false} MigrationsRunConcat(a: seq<Action>, b: seq<Action>)
    ensures MigrationsRun(a + b) == MigrationsRun(a) + MigrationsRun(b)
  {
    if b == [] {
      assert a + b == a;
    } else {
      var init, last := b[..|b| - 1], b[|b| - 1];
      assert (a + b)[..|a + b| - 1] == a + init;
      assert (a + b)[|a + b| - 1] == last;
      MigrationsRunConcat(a, init);
      var x := if last.RunMigrateFromPrevious? then [last.version] else [];
      assert MigrationsRun(a + b) == (MigrationsRun(a) + MigrationsRun(init)) + x;
      assert MigrationsRun(b) == MigrationsRun(init) + x;
    }
  }

  lemma {:induction false} CreatesRunNoMigration(tables: seq<Table>)
    ensures MigrationsRun(Creates(tables)) == []
  {
    if tables != [] {
      var init := tables[..|tables| - 1];
      assert Creates(tables) == Creates(init) + [CreateTable(tables[|tables| - 1])];
      MigrationsRunConcat(Creates(init), [CreateTable(tables[|tables| - 1])]);
      CreatesRunNoMigration(init);
      assert MigrationsRun([CreateTable(tables[|tables| - 1])]) == [] by {
        assert [CreateTable(tables[|tables| - 1])][..0] == [];
      }
    }
  }

  lemma {:induction false} DropsRunNoMigration(tables: seq<Table>)
    ensures MigrationsRun(Drops(tables)) == []
  {
    if tables != [] {
      var init := tables[..|tables| - 1];
      assert Drops(tables) == Drops(init) + [DropTable(tables[|tables| - 1])];
      MigrationsRunConcat(Drops(init), [DropTable(tables[|tables| - 1])]);
      DropsRunNoMigration(init);
      assert MigrationsRun([DropTable(tables[|tables| - 1])]) == [] by {
        assert [DropTable(tables[|tables| - 1])][..0] == [];
      }
    }
  }

  /** The versions after `base` up to `top` that have `migrateFromPrevious`, in chain order. */
  function Migrating(schemas: seq<Schema>, base: nat, top: nat): seq<Int32>
    requires base <= top < |schemas|
    decreases top
  {
    if top == base then []
    else Migrating(schemas, base, top - 1) + (if schemas[top].migrateFromPrevious then [schemas[top].version] else [])
  }

  /**
   * The step-wise migration runs the `migrateFromPrevious` of each later
   * version exactly once, in chain order, and no other schema code of that
   * kind.
   */
  lemma {:induction false} StepwiseRunsMigrationsInOrder(schemas: seq<Schema>, base: nat, top: nat)
    requires base <= top < |schemas|
    ensures MigrationsRun(Stepwise(schemas, base, top)) == Migrating(schemas, base, top)
    decreases top
  {
    if top > base {
      var prev, next := schemas[top - 1], schemas[top];
      StepwiseRunsMigrationsInOrder(schemas, base, top - 1);
      var C, D := Creates(Created(prev.tables, next.tables)), Drops(Created(next.tables, prev.tables));
      StepwiseSnoc(schemas, base, top);
      MigrationsRunConcat(Stepwise(schemas, base, top - 1), C + MigrateStep(next) + D);
      MigrationsRunConcat(C + MigrateStep(next), D);
      MigrationsRunConcat(C, MigrateStep(next));
      CreatesRunNoMigration(Created(prev.tables, next.tables));
      DropsRunNoMigration(Created(next.tables, prev.tables));
      if next.migrateFromPrevious {
        assert MigrationsRun(MigrateStep(next)) == [next.version] by {
          assert MigrateStep(next)[..0] == [];
        }
      }
    }
  }

  // ---------------------------------------------------------------------
  // The loops of `openUniversalDatabase`

  /** `for (table in next) if (table !in prev) createTableAndIndices(table)`. */
  method CreateMissing(prev: seq<Table>, next: seq<Table>) returns (log: seq<Action>)
    ensures log == Creates(Created(prev, next))
  {
    log := [];
    for j := 0 to |next|
      invariant log == Creates(Created(prev, next[..j]))
    {
      var table := next[j];
      assert next[..j + 1][..j] == next[..j];
      if table !in prev {
        assert Created(prev, next[..j + 1]) == Created(prev, next[..j]) + [table];
        log := log + [CreateTable(table)];
      } else {
        assert Created(prev, next[..j + 1]) == Created(prev, next[..j]);
      }
    }
    assert next[..|next|] == next;
  }

  /** `for (table in prev) if (table !in next) DROP TABLE`. */
  method DropMissing(prev: seq<Table>, next: seq<Table>) returns (log: seq<Action>)
    ensures log == Drops(Created(next, prev))
  {
    log := [];
    for j := 0 to |prev|
      invariant log == Drops(Created(next, prev[..j]))
    {
      var table := prev[j];
      assert prev[..j + 1][..j] == prev[..j];
      if table !in next {
        assert Created(next, prev[..j + 1]) == Created(next, prev[..j]) + [table];
        log := log + [DropTable(table)];
      } else {
        assert Created(next, prev[..j + 1]) == Created(next, prev[..j]);
      }
    }
    assert prev[..|prev|] == prev;
  }

  /** The scan of `sqlite_schema`: drop each named table that is not the engine's. */
  method DropStored(rows: seq<Option<string>>) returns (log: seq<Action>)
    ensures log == StoredDrops(rows)
  {
    log := [];
    for i := 0 to |rows|
      invariant log == StoredDrops(rows[..i])
    {
      assert rows[..i + 1][..i] == rows[..i];
      var tableName := rows[i];
      if tableName.None? {
        continue;
      }
      if !IsEngineTable(tableName.value) {
        log := log + [DropStoredTable(tableName.value)];
      }
    }
    assert rows[..|rows|] == rows;
  }

  /**
   * `for (table in tables) createTableAndIndices(table)`. The IndexedDB
   * upgrade handler's `createObjectStore`/`createIndex` loop makes the same
   * requests, so `IndexedDb` uses this method too.
   */
  method CreateAll(tables: seq<Table>) returns (log: seq<Action>)
    ensures log == Creates(tables)
  {
    log := [];
    for j := 0 to |tables|
      invariant log == Creates(tables[..j])
    {
      assert tables[..j + 1][..j] == tables[..j];
      log := log + [CreateTable(tables[j])];
    }
    assert tables[..|tables|] == tables;
  }

  /**
   * The step-wise loop: for each version after the stored one, create the
   * new tables, run its migration, queue its callback and drop the tables
   * it no longer has.
   */
  method MigrateStepwise(schemas: seq<Schema>, from: nat) returns (log: seq<Action>, callbacks: seq<Int32>)
    requires from < |schemas|
    ensures log == Stepwise(schemas, from, |schemas| - 1)
    ensures callbacks == StepwiseCallbacks(schemas, from, |schemas| - 1)
  {
    log, callbacks := [], [];
    StepwiseEmpty(schemas, from);
    for nextSchemaIndex := from + 1 to |schemas|
      invariant log == Stepwise(schemas, from, nextSchemaIndex - 1)
      invariant callbacks == StepwiseCallbacks(schemas, from, nextSchemaIndex - 1)
    {
      var step, queued := MigrateOneStep(schemas[nextSchemaIndex - 1], schemas[nextSchemaIndex]);
      StepwiseSnoc(schemas, from, nextSchemaIndex);
      log := log + step;
      callbacks := callbacks + queued;
    }
  }

  /** One pass of the step-wise loop: its requests, and the callback it queues. */
  method MigrateOneStep(currentSchema: Schema, nextSchema: Schema) returns (log: seq<Action>, queued: seq<Int32>)
    ensures log == StepActions(currentSchema, nextSchema)
    ensures queued == if nextSchema.afterSuccessfulCreationOrMigration then [nextSchema.version] else []
  {
    var created := CreateMissing(currentSchema.tables, nextSchema.tables);
    var migration: seq<Action> := [];
    if nextSchema.migrateFromPrevious {
      migration := [RunMigrateFromPrevious(nextSchema.version)];
    }
    queued := [];
    if nextSchema.afterSuccessfulCreationOrMigration {
      queued := [nextSchema.version];
    }
    var dropped := DropMissing(currentSchema.tables, nextSchema.tables);
    log := created + migration + dropped;
  }


  /** The fresh creation, and the target's callback. */
  method CreateFresh(target: Schema, currentVersion: Int32, rows: seq<Option<string>>)
    returns (log: seq<Action>, callbacks: seq<Int32>)
    ensures log == FreshActions(target, currentVersion, rows)
    ensures callbacks == FreshCallbacks(target)
  {
    log, callbacks := [], [];
    if currentVersion != 0 {
      var dropped := DropStored(rows);
      log := [ListStoredTables] + dropped;
    }
    var created := CreateAll(target.tables);
    log := log + created;
    if target.createdNew {
      log := log + [RunCreatedNew(target.version)];
    }
    if target.afterSuccessfulCreationOrMigration {
      callbacks := callbacks + [target.version];
    }
  }

  /**
   * `openUniversalDatabase` up to the result, as the requests it makes
   * when none of them throws. `rows` are the names the `sqlite_schema`
   * scan returns.
   */
  method OpenUniversalDatabase(schemas: seq<Schema>, userVersion: Option<Int32>, rows: seq<Option<string>>)
    returns (log: seq<Action>)
    requires schemas != []
    ensures log == OpenPlan(schemas, CurrentVersion(userVersion), rows)
  {
    var schema := schemas[|schemas| - 1];
    log := [JournalModeWal, ReadUserVersion];
    var currentVersion := CurrentVersion(userVersion);
    var targetVersion := schema.version;
    if currentVersion > targetVersion {
      log := log + [CloseConnection];
      return;
    }
    if currentVersion < targetVersion {
      var migration := Migrate(schemas, currentVersion, rows);
      log := log + migration;
    }
  }

  /**
   * The migration transaction: the structural requests, `user_version`,
   * the queued callbacks, then success and the end of the transaction.
   */
  method Migrate(schemas: seq<Schema>, currentVersion: Int32, rows: seq<Option<string>>) returns (log: seq<Action>)
    requires schemas != []
    ensures log == [BeginExclusive] + MigrationActions(schemas, currentVersion, rows) +
                   [SetUserVersion(Target(schemas).version)] +
                   CallbackRuns(MigrationCallbacks(schemas, currentVersion)) + [SetTransactionSuccessful, EndTransaction]
  {
    var schema := schemas[|schemas| - 1];
    var migrateFromIndex := IndexOfFirst(schemas, currentVersion);
    var structural, postMigrationCallbacks;
    if migrateFromIndex < 0 {
      structural, postMigrationCallbacks := CreateFresh(schema, currentVersion, rows);
    } else {
      structural, postMigrationCallbacks := MigrateStepwise(schemas, migrateFromIndex);
    }
    var callbackRuns := RunCallbacks(postMigrationCallbacks);
    log := [BeginExclusive] + structural + [SetUserVersion(schema.version)] + callbackRuns +
           [SetTransactionSuccessful, EndTransaction];
  }

  /** `for (callback in postMigrationCallbacks) callback(...)`, in queue order. */
  method RunCallbacks(callbacks: seq<Int32>) returns (log: seq<Action>)
    ensures log == CallbackRuns(callbacks)
  {
    log := [];
    for i := 0 to |callbacks|
      invariant log == CallbackRuns(callbacks[..i])
    {
      assert callbacks[..i + 1][..i] == callbacks[..i];
      log := log + [RunCallback(callbacks[i])];
    }
    assert callbacks[..|callbacks|] == callbacks;
  }
}
