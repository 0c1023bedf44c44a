/**
 * Opening a database with the older `ud` SQLite backend
 * (src/androidMain/.../ud/SQLiteUniversalDatabase.kt): an Android
 * `SQLiteOpenHelper` whose `onCreate`, `onUpgrade`, `onDowngrade` and
 * `onOpen` do the migration. The helper calls `onCreate` on a new
 * database, `onUpgrade` when the stored version is older, `onDowngrade`
 * when it is newer, and then `onOpen`; that dispatch is the Android
 * framework's and is written out here as `OpenHelper`.
 *
 * The older `Table` draws no id and the older `Schema` builds no table
 * set; the model reuses `Schemas.Table` and `Schemas.Schema`, whose `id`
 * and `tableSet` no migration code reads. `onUpgrade` plans the same
 * creates, drops and schema code as the current backend, in the same
 * order; the post-migration callbacks differ, and so does the text of
 * `CREATE TABLE`: the older one binds every name as a `?` parameter, which
 * the engine refuses, so the first create of a plan fails the open.
 */
module LegacySqliteOpen {
  import opened Wrappers
  import opened KotlinInts
  import opened Names
  import opened Schemas
  import opened Validation
  import opened Throwables
  import opened Migrations
  import SqliteOpen

  /** The cursor's rows, as the current backend's nullable column reads. */
  function AsRows(names: seq<string>): (r: seq<Option<string>>)
    ensures |r| == |names| && forall i :: 0 <= i < |names| ==> r[i] == Some(names[i])
  {
    seq(|names|, i requires 0 <= i < |names| => Some(names[i]))
  }

  /**
   * The callbacks the step-wise `onUpgrade` queues, AS WRITTEN: every step
   * adds `schema.afterSuccessfulCreationOrMigration`, where `schema` is the
   * target, not the step's own version.
   */
  function LegacyStepCallbacks(schemas: seq<Schema>, base: nat, top: nat): (r: seq<Int32>)
    requires base <= top < |schemas|
    ensures |r| == if schemas[|schemas| - 1].afterSuccessfulCreationOrMigration then top - base else 0
    ensures forall v :: v in r ==> v == schemas[|schemas| - 1].version
    decreases top
  {
    if top == base then []
    else
      var target := schemas[|schemas| - 1];
      LegacyStepCallbacks(schemas, base, top - 1) +
      (if target.afterSuccessfulCreationOrMigration then [target.version] else [])
  }

  /** The callbacks `onUpgrade(db, oldVersion, …)` queues. */
  function LegacyCallbacks(schemas: seq<Schema>, oldVersion: Int32): seq<Int32>
    requires schemas != []
  {
    var from := IndexOfFirst(schemas, oldVersion);
    if from < 0 then FreshCallbacks(schemas[|schemas| - 1])
    else LegacyStepCallbacks(schemas, from, |schemas| - 1)
  }

  /**
   * `onUpgrade`, as the requests it plans: the current backend's creates,
   * drops and schema code (the fresh creation over a version not in the
   * chain, the steps otherwise), and the callbacks as written. The engine
   * stops the plan at its first `CreateTable` (see `OpenHelper`).
   */
  method OnUpgrade(schemas: seq<Schema>, oldVersion: Int32, names: seq<string>)
    returns (log: seq<Action>, postMigrationCallbacks: seq<Int32>)
    requires schemas != []
    ensures log == SqliteOpen.MigrationActions(schemas, oldVersion, AsRows(names))
    ensures postMigrationCallbacks == LegacyCallbacks(schemas, oldVersion)
  {
    var schema := schemas[|schemas| - 1];
    var migrateFromIndex := IndexOfFirst(schemas, oldVersion);
    if migrateFromIndex < 0 {
      log, postMigrationCallbacks := SqliteOpen.CreateFresh(schema, oldVersion, AsRows(names));
    } else {
      log, postMigrationCallbacks := MigrateStepwise(schemas, migrateFromIndex);
    }
  }

  /** The step-wise loop of `onUpgrade`: the current backend's planned steps, the target's callback on each. */
  method MigrateStepwise(schemas: seq<Schema>, from: nat) returns (log: seq<Action>, postMigrationCallbacks: seq<Int32>)
    requires from < |schemas|
    ensures log == Stepwise(schemas, from, |schemas| - 1)
    ensures postMigrationCallbacks == LegacyStepCallbacks(schemas, from, |schemas| - 1)
  {
    var schema := schemas[|schemas| - 1];
    log, postMigrationCallbacks := [], [];
    StepwiseEmpty(schemas, from);
    for nextSchemaIndex := from + 1 to |schemas|
      invariant log == Stepwise(schemas, from, nextSchemaIndex - 1)
      invariant postMigrationCallbacks == LegacyStepCallbacks(schemas, from, nextSchemaIndex - 1)
    {
      var step, _ := SqliteOpen.MigrateOneStep(schemas[nextSchemaIndex - 1], schemas[nextSchemaIndex]);
      StepwiseSnoc(schemas, from, nextSchemaIndex);
      log := log + step;
      if schema.afterSuccessfulCreationOrMigration {
        postMigrationCallbacks := postMigrationCallbacks + [schema.version];
      }
    }
  }

  /** `onCreate`: exactly `onUpgrade(db, 0, schema.version)`. */
  method OnCreate(schemas: seq<Schema>, names: seq<string>) returns (log: seq<Action>, postMigrationCallbacks: seq<Int32>)
    requires schemas != []
    ensures log == SqliteOpen.MigrationActions(schemas, 0, AsRows(names))
    ensures postMigrationCallbacks == LegacyCallbacks(schemas, 0)
  {
    log, postMigrationCallbacks := OnUpgrade(schemas, 0, names);
  }

  /**
   * `onOpen`: every queued callback runs, in order; a failure is caught and
   * kept in `callbackError`, the first one with the later ones suppressed.
   */
  method OnOpen<E>(postMigrationCallbacks: seq<Int32>, run: Int32 -> Outcome<E>)
    returns (log: seq<Action>, callbackError: Option<Thrown<E>>)
    ensures log == SqliteOpen.CallbackRuns(postMigrationCallbacks)
    ensures callbackError == Grouped(Failures(postMigrationCallbacks, run))
  {
    log, callbackError := [], None;
    for i := 0 to |postMigrationCallbacks|
      invariant log == SqliteOpen.CallbackRuns(postMigrationCallbacks[..i])
      invariant callbackError == Grouped(Failures(postMigrationCallbacks[..i], run))
    {
      var callback := postMigrationCallbacks[i];
      assert postMigrationCallbacks[..i + 1] == postMigrationCallbacks[..i] + [callback];
      GroupedStep(postMigrationCallbacks[..i], callback, run);
      log := log + [RunCallback(callback)];
      callbackError := AddOutcome(callbackError, run(callback));
    }
    assert postMigrationCallbacks[..|postMigrationCallbacks|] == postMigrationCallbacks;
  }

  // ---------------------------------------------------------------------
  // The text of `CREATE TABLE`: as written, and with the names spliced in

  /** `n` copies of `s`. */
  function Repeat(s: string, n: nat): (r: string)
    ensures |r| == n * |s|
  {
    if n == 0 then [] else Repeat(s, n - 1) + s
  }

  const CreateTablePrefix: string := "CREATE TABLE "

  /**
   * The older `createTableAndIndices`: the table's name, both column names
   * and each index's field name are bound arguments, one `?` each.
   */
  function LegacyCreateTableSql(indexCount: nat): string
  {
    CreateTablePrefix + ['?'] + " (? BLOB PRIMARY KEY NOT NULL, ? BLOB NOT NULL" + Repeat(", ? BLOB NOT NULL", indexCount) + ")"
  }

  /** The current `createTableAndIndices`: the names are part of the text (key column `k`, value column `v`). */
  function CreateTableSql(tableName: string, fieldNames: seq<string>): string
  {
    CreateTablePrefix + tableName + " (k BLOB PRIMARY KEY NOT NULL, v BLOB NOT NULL" + Columns(fieldNames) + ")"
  }

  /** `, <field> BLOB NOT NULL` per index, in order. */
  function Columns(fieldNames: seq<string>): string
  {
    if fieldNames == [] then [] else Columns(fieldNames[..|fieldNames| - 1]) + ", " + fieldNames[|fieldNames| - 1] + " BLOB NOT NULL"
  }

  /**
   * SQLite allows a parameter only where an expression may stand: a `?`
   * where `CREATE TABLE` expects the table's name is a syntax error, and
   * the statement is refused before anything is bound.
   */
  predicate BindsTableName(sql: string)
  {
    |sql| > |CreateTablePrefix| && sql[..|CreateTablePrefix|] == CreateTablePrefix && sql[|CreateTablePrefix|] == '?'
  }

  /** AS WRITTEN: every older `CREATE TABLE`, whatever the table, binds its name and is refused. */
  lemma LegacyCreateRefused(indexCount: nat)
    ensures BindsTableName(LegacyCreateTableSql(indexCount))
  {
    var sql := LegacyCreateTableSql(indexCount);
    var rest := " (? BLOB PRIMARY KEY NOT NULL, ? BLOB NOT NULL" + Repeat(", ? BLOB NOT NULL", indexCount) + ")";
    assert sql == CreateTablePrefix + (['?'] + rest);
    assert sql[..|CreateTablePrefix|] == CreateTablePrefix;
  }

  /** As intended, and as the current backend writes it: a name `validateName` accepts never leaves a `?` there. */
  lemma SplicedCreateAccepted(tableName: string, fieldNames: seq<string>)
    requires ValidName(tableName)
    ensures !BindsTableName(CreateTableSql(tableName, fieldNames))
  {
    var sql := CreateTableSql(tableName, fieldNames);
    assert sql[|CreateTablePrefix|] == tableName[0];
    assert IsNameChar(tableName[0]);
  }

  // ---------------------------------------------------------------------
  // The open

  /** What opening can throw from `readableDatabase`. */
  datatype OpenFailure = SQLiteException(message: string) | OtherThrowable

  /** The older `OpenDBResult`, and a throw that escapes `openUniversalDatabase`. */
  datatype LegacyOpenResult = Success | NewerVersionExists | OutOfMemory | Failure | Throws

  /** `haystack` has `needle` as a contiguous part (Kotlin's `contains`). */
  predicate HasSubstring(haystack: string, needle: string)
  {
    exists i :: 0 <= i <= |haystack| - |needle| && haystack[i..][..|needle|] == needle
  }

  const ReadOnlyUpgrade: string := "Can't upgrade read-only database"

  /** SQLite's message for a statement with a `?` where a name must stand. */
  const SyntaxError: OpenFailure := SQLiteException("near \"?\": syntax error")

  /**
   * The `catch (e: SQLiteException)` of `openUniversalDatabase`: a recorded
   * downgrade wins, then the read-only upgrade message, then any other
   * engine failure; other throwables are not caught.
   */
  function OpenResultOf(newerVersionExists: bool, failure: Option<OpenFailure>): (r: LegacyOpenResult)
    ensures r == Success <==> failure.None?
    ensures r == Throws <==> failure == Some(OtherThrowable)
    ensures r == NewerVersionExists <==> failure.Some? && failure.value.SQLiteException? && newerVersionExists
    ensures r == OutOfMemory <==>
      failure.Some? && failure.value.SQLiteException? && !newerVersionExists &&
      HasSubstring(failure.value.message, ReadOnlyUpgrade)
  {
    match failure
    case None => Success
    case Some(OtherThrowable) => Throws
    case Some(SQLiteException(message)) =>
      if newerVersionExists then NewerVersionExists
      else if HasSubstring(message, ReadOnlyUpgrade) then OutOfMemory
      else Failure
  }

  /**
   * What one open did: the result, the requests made (the last one the
   * refused, when the open failed), whether the framework's migration
   * transaction committed, and the callbacks' collected failure.
   */
  datatype Opened<E> = Opened(result: LegacyOpenResult, log: seq<Action>, committed: bool, callbackError: Option<Thrown<E>>)

  /** The position of the first `CreateTable` of a plan, if it has one. */
  function FirstCreate(plan: seq<Action>): (r: Option<nat>)
    ensures r.Some? ==>
      r.value < |plan| && plan[r.value].CreateTable? && forall i :: 0 <= i < r.value ==> !plan[i].CreateTable?
    ensures r.None? <==> forall i :: 0 <= i < |plan| ==> !plan[i].CreateTable?
  {
    if plan == [] then None
    else if plan[0].CreateTable? then Some(0)
    else
      var rest := FirstCreate(plan[1..]);
      assert forall i :: 0 < i < |plan| ==> plan[i] == plan[1..][i - 1];
      if rest.None? then None else Some(rest.value + 1)
  }

  /**
   * The open, AS WRITTEN. A newer stored version reaches `onDowngrade`,
   * which records it before the framework throws; the target version
   * migrates nothing. An older one runs the plan inside the framework's
   * transaction until the first `CreateTable`, whose statement the engine
   * refuses (`LegacyCreateRefused`): the transaction rolls back, `onOpen`
   * never runs and the open reports `Failure`. A plan with no create
   * commits and then runs the queued callbacks.
   */
  function LegacyOpen<E>(schemas: seq<Schema>, storedVersion: Int32, names: seq<string>, run: Int32 -> Outcome<E>): (r: Opened<E>)
    requires schemas != []
    ensures var target := SqliteOpen.Target(schemas).version;
      var plan := SqliteOpen.MigrationActions(schemas, storedVersion, AsRows(names));
      && (r.result == NewerVersionExists <==> storedVersion > target)
      && (r.result == Failure <==> storedVersion < target && FirstCreate(plan).Some?)
      && (r.result == Success <==> storedVersion == target || (storedVersion < target && FirstCreate(plan).None?))
      && (r.committed <==> storedVersion < target && r.result == Success)
      && (r.result != Success ==> r.callbackError == None)
      && (storedVersion > target ==> r.log == [])
      && (r.result == Failure ==> r.log == plan[..FirstCreate(plan).value + 1] && r.log[|r.log| - 1].CreateTable?)
      && (storedVersion == target ==> r.log == [] && r.callbackError == None)
      && (r.committed ==>
            var callbacks := LegacyCallbacks(schemas, storedVersion);
            r.log == plan + SqliteOpen.CallbackRuns(callbacks) && r.callbackError == Grouped(Failures(callbacks, run)))
  {
    var target := SqliteOpen.Target(schemas).version;
    if storedVersion > target then
      assert !HasSubstring("Can't downgrade database", ReadOnlyUpgrade);
      Opened(OpenResultOf(true, Some(SQLiteException("Can't downgrade database"))), [], false, None)
    else if storedVersion == target then Opened(Success, [], false, None)
    else
      var plan := SqliteOpen.MigrationActions(schemas, storedVersion, AsRows(names));
      match FirstCreate(plan)
      case Some(k) =>
        assert !HasSubstring(SyntaxError.message, ReadOnlyUpgrade);
        Opened(OpenResultOf(false, Some(SyntaxError)), plan[..k + 1], false, None)
      case None =>
        var callbacks := LegacyCallbacks(schemas, storedVersion);
        Opened(Success, plan + SqliteOpen.CallbackRuns(callbacks), true, Grouped(Failures(callbacks, run)))
  }

  /** The open with the helper's dispatch written out, proved against `LegacyOpen`. */
  method OpenHelper<E>(schemas: seq<Schema>, storedVersion: Int32, names: seq<string>, run: Int32 -> Outcome<E>)
    returns (r: Opened<E>)
    requires schemas != []
    ensures r == LegacyOpen(schemas, storedVersion, names, run)
  {
    var target := schemas[|schemas| - 1].version;
    if storedVersion > target {
      var newerVersionExists := true;
      var failure := SQLiteException("Can't downgrade database");
      assert !HasSubstring(failure.message, ReadOnlyUpgrade);
      return Opened(OpenResultOf(newerVersionExists, Some(failure)), [], false, None);
    }
    if storedVersion == target {
      // nothing to migrate, and `onOpen` finds an empty queue
      return Opened(OpenResultOf(false, None), [], false, None);
    }
    var log: seq<Action>, postMigrationCallbacks: seq<Int32>;
    if storedVersion == 0 {
      log, postMigrationCallbacks := OnCreate(schemas, names);
    } else {
      log, postMigrationCallbacks := OnUpgrade(schemas, storedVersion, names);
    }
    var refused := FirstCreate(log);
    if refused.Some? {
      // the engine throws on the create; the framework's `finally` rolls back
      assert !HasSubstring(SyntaxError.message, ReadOnlyUpgrade);
      return Opened(OpenResultOf(false, Some(SyntaxError)), log[..refused.value + 1], false, None);
    }
    var runs, callbackError := OnOpen(postMigrationCallbacks, run);
    r := Opened(OpenResultOf(false, None), log + runs, true, callbackError);
  }

  /**
   * AS WRITTEN: a database the chain does not know (a new one included)
   * whose target has a table never opens. The open fails on the target's
   * first table, after the scan and the drops of a stored one.
   */
  lemma FreshOpenFails<E>(schemas: seq<Schema>, storedVersion: Int32, names: seq<string>, run: Int32 -> Outcome<E>)
    requires schemas != [] && storedVersion < SqliteOpen.Target(schemas).version
    requires IndexOfFirst(schemas, storedVersion) < 0 && SqliteOpen.Target(schemas).tables != []
    ensures var r := LegacyOpen(schemas, storedVersion, names, run);
      var drops := if storedVersion != 0 then [ListStoredTables] + StoredDrops(AsRows(names)) else [];
      r.result == Failure && !r.committed && r.log == drops + [CreateTable(SqliteOpen.Target(schemas).tables[0])]
  {
    FreshPlanCreatesFirst(schemas, storedVersion, AsRows(names));
  }

  /** Over a version the chain does not know, the plan's first create is the target's first table, after the drops. */
  lemma FreshPlanCreatesFirst(schemas: seq<Schema>, storedVersion: Int32, rows: seq<Option<string>>)
    requires schemas != [] && IndexOfFirst(schemas, storedVersion) < 0 && SqliteOpen.Target(schemas).tables != []
    ensures var plan := SqliteOpen.MigrationActions(schemas, storedVersion, rows);
      var drops := if storedVersion != 0 then [ListStoredTables] + StoredDrops(rows) else [];
      FirstCreate(plan) == Some(|drops|) && plan[..|drops| + 1] == drops + [CreateTable(SqliteOpen.Target(schemas).tables[0])]
  {
    var target := SqliteOpen.Target(schemas);
    var drops := if storedVersion != 0 then [ListStoredTables] + StoredDrops(rows) else [];
    var rest := Creates(target.tables) + (if target.createdNew then [RunCreatedNew(target.version)] else []);
    assert SqliteOpen.MigrationActions(schemas, storedVersion, rows) == drops + rest;
    FirstCreateAfter(drops, rest);
  }

  /** A plan whose first create comes right after a part with none. */
  lemma FirstCreateAfter(init: seq<Action>, rest: seq<Action>)
    requires forall i :: 0 <= i < |init| ==> !init[i].CreateTable?
    requires rest != [] && rest[0].CreateTable?
    ensures FirstCreate(init + rest) == Some(|init|)
    ensures (init + rest)[..|init| + 1] == init + [rest[0]]
  {
    var plan := init + rest;
    assert plan[|init|] == rest[0];
    assert forall i :: 0 <= i < |init| ==> plan[i] == init[i];
  }

  /**
   * The smallest case: one version with one table, opened on a new
   * database. As written the open fails on that table's `CREATE TABLE`;
   * the current backend's open of the same schema commits.
   */
  lemma NewDatabaseNeverOpens<E>(t: Table, ts: TableSets.TableSet, run: Int32 -> Outcome<E>)
    ensures var schemas := [Schema(1, [t], false, false, false, ts)];
      && LegacyOpen(schemas, 0, [], run) == Opened(Failure, [CreateTable(t)], false, None)
      && SqliteOpen.Open(schemas, Some(0), [], None).result == SqliteOpen.Success
      && SqliteOpen.Open(schemas, Some(0), [], None).committed
  {
    var schemas := [Schema(1, [t], false, false, false, ts)];
    FreshOpenFails(schemas, 0, [], run);
  }

  // ---------------------------------------------------------------------
  // The callbacks: as written, and as the current backend queues them

  /**
   * AS WRITTEN, over three versions whose middle one has no callback and
   * whose last one has: migrating from the first queues the target's
   * callback twice, where the current backend queues it once.
   */
  lemma TargetCallbackQueuedPerStep(schemas: seq<Schema>)
    requires |schemas| == 3 && !schemas[1].afterSuccessfulCreationOrMigration
    requires schemas[2].afterSuccessfulCreationOrMigration
    ensures LegacyStepCallbacks(schemas, 0, 2) == [schemas[2].version, schemas[2].version]
    ensures StepwiseCallbacks(schemas, 0, 2) == [schemas[2].version]
  {
    assert LegacyStepCallbacks(schemas, 0, 1) == [schemas[2].version];
    assert StepwiseCallbacks(schemas, 0, 1) == [];
  }

  /**
   * AS WRITTEN, in general: a migration over k steps runs the target's
   * callback k times when the target has one, and never the callback of a
   * version in between.
   */
  lemma {:induction false} LegacyCallbacksRepeatTarget(schemas: seq<Schema>, base: nat, top: nat)
    requires base <= top < |schemas| && schemas[|schemas| - 1].afterSuccessfulCreationOrMigration
    ensures LegacyStepCallbacks(schemas, base, top) == seq(top - base, _ => schemas[|schemas| - 1].version)
    decreases top
  {
    if top > base {
      LegacyCallbacksRepeatTarget(schemas, base, top - 1);
      var v := schemas[|schemas| - 1].version;
      assert seq(top - base, _ => v) == seq(top - 1 - base, _ => v) + [v];
    }
  }

  /**
   * As intended (the field's doc comment: it is called after an open that
   * ran this schema's `migrateFromPrevious` or `createdNew`), and as the
   * current backend does: the queue has one entry per step whose version
   * has a callback, in step order, and that entry is the step's own
   * version.
   */
  lemma {:induction false} StepCallbacksAreOwn(schemas: seq<Schema>, base: nat, top: nat)
    requires base <= top < |schemas|
    ensures var steps := CallbackSteps(schemas, base, top);
      StepwiseCallbacks(schemas, base, top) == seq(|steps|, k requires 0 <= k < |steps| => schemas[steps[k]].version)
    decreases top
  {
    if top > base {
      StepCallbacksAreOwn(schemas, base, top - 1);
      var steps, init := CallbackSteps(schemas, base, top), CallbackSteps(schemas, base, top - 1);
      var own := seq(|steps|, k requires 0 <= k < |steps| => schemas[steps[k]].version);
      var before := seq(|init|, k requires 0 <= k < |init| => schemas[init[k]].version);
      if schemas[top].afterSuccessfulCreationOrMigration {
        assert own == before + [schemas[top].version];
      } else {
        assert own == before;
      }
    }
  }

  /** The indices of the versions after `base` up to `top` that have a callback, in chain order. */
  function CallbackSteps(schemas: seq<Schema>, base: nat, top: nat): (r: seq<nat>)
    requires base <= top < |schemas|
    ensures forall k :: 0 <= k < |r| ==> base < r[k] <= top && schemas[r[k]].afterSuccessfulCreationOrMigration
    ensures forall k, l :: 0 <= k < l < |r| ==> r[k] < r[l]
    decreases top
  {
    if top == base then []
    else CallbackSteps(schemas, base, top - 1) + (if schemas[top].afterSuccessfulCreationOrMigration then [top] else [])
  }
}
