/**
 * The schema migration shared by the backends: which tables a version
 * change creates and drops, and which schema code it runs. The storage
 * engine is abstract. The model records, in order, the operations the
 * engine is asked to perform, and gives that log a meaning on the set of
 * stored table names: creating a table whose name is taken, or dropping a
 * table that is not there, is an engine error.
 */
module Migrations {
  import opened Wrappers
  import opened KotlinInts
  import opened Names
  import opened Schemas
  import opened Validation

  /** One request to the storage engine, or one run of schema code. */
  datatype Action =
    | JournalModeWal
    | ReadUserVersion
    | BeginExclusive
    | ListStoredTables
    | DropStoredTable(name: string)
    /** `createTableAndIndices`: the table and every index of it. */
    | CreateTable(table: Table)
    | RunCreatedNew(version: Int32)
    | RunMigrateFromPrevious(version: Int32)
    | DropTable(table: Table)
    | SetUserVersion(version: Int32)
    | RunCallback(version: Int32)
    | SetTransactionSuccessful
    | EndTransaction
    | CloseConnection

  /** What one action does to the stored table names; `None` when the engine refuses it. */
  function Perform(a: Action, stored: set<string>): Option<set<string>>
  {
    match a
    case CreateTable(t) => if t.name in stored then None else Some(stored + {t.name})
    case DropTable(t) => if t.name in stored then Some(stored - {t.name}) else None
    case DropStoredTable(n) => if n in stored then Some(stored - {n}) else None
    case _ => Some(stored)
  }

  /** The actions of `log` one after the other. */
  function Apply(log: seq<Action>, stored: set<string>): Option<set<string>>
  {
    if log == [] then Some(stored)
    else match Apply(log[..|log| - 1], stored)
      case None => None
      case Some(s) => Perform(log[|log| - 1], s)
  }

  function Then(r: Option<set<string>>, log: seq<Action>): Option<set<string>>
  {
    match r
    case None => None
    case Some(s) => Apply(log, s)
  }

  lemma {:induction false} ApplyConcat(a: seq<Action>, b: seq<Action>, stored: set<string>)
    ensures Apply(a + b, stored) == Then(Apply(a, stored), b)
  {
    if b == [] {
      assert a + b == a;
    } else {
      assert (a + b)[..|a + b| - 1] == a + b[..|b| - 1];
      ApplyConcat(a, b[..|b| - 1], stored);
    }
  }

  lemma ApplySnoc(log: seq<Action>, a: Action, stored: set<string>)
    ensures Apply(log + [a], stored) == Then(Apply(log, stored), [a])
  {
    assert (log + [a])[..|log|] == log;
    match Apply(log, stored)
    case None =>
    case Some(s) =>
      assert [a][..0] == [];
      assert Apply([a], s) == Perform(a, s);
  }

  lemma ApplyChain(a: seq<Action>, b: seq<Action>, start: set<string>, mid: set<string>, end: set<string>)
    requires Apply(a, start) == Some(mid) && Apply(b, mid) == Some(end)
    ensures Apply(a + b, start) == Some(end)
  {
    ApplyConcat(a, b, start);
  }

  /** Actions that leave the stored names alone. */
  predicate Neutral(log: seq<Action>)
  {
    forall i :: 0 <= i < |log| ==> !log[i].CreateTable? && !log[i].DropTable? && !log[i].DropStoredTable?
  }

  lemma {:induction false} ApplyNeutral(log: seq<Action>, stored: set<string>)
    requires Neutral(log)
    ensures Apply(log, stored) == Some(stored)
  {
    if log != [] {
      ApplyNeutral(log[..|log| - 1], stored);
    }
  }

  /** The names of a list of tables. */
  function NamesOf(tables: seq<Table>): set<string>
  {
    set t {:trigger t in tables} | t in tables :: t.name
  }

  /** `createTableAndIndices` for each table, in order. */
  function Creates(tables: seq<Table>): (r: seq<Action>)
    ensures |r| == |tables| && forall i :: 0 <= i < |tables| ==> r[i] == CreateTable(tables[i])
  {
    if tables == [] then [] else Creates(tables[..|tables| - 1]) + [CreateTable(tables[|tables| - 1])]
  }

  /** `DROP TABLE` for each table, in order. */
  function Drops(tables: seq<Table>): (r: seq<Action>)
    ensures |r| == |tables| && forall i :: 0 <= i < |tables| ==> r[i] == DropTable(tables[i])
  {
    if tables == [] then [] else Drops(tables[..|tables| - 1]) + [DropTable(tables[|tables| - 1])]
  }

  /** The tables of `next` that `prev` does not hold (`table !in currentSchema.tables`), in order. */
  function Created(prev: seq<Table>, next: seq<Table>): (r: seq<Table>)
    ensures forall t {:trigger t in r} :: t in r ==> t in next && t !in prev
    ensures forall t {:trigger t in next, t in prev} :: t in next && t !in prev ==> t in r
  {
    if next == [] then []
    else
      var last := next[|next| - 1];
      assert next == next[..|next| - 1] + [last];
      Created(prev, next[..|next| - 1]) + (if last in prev then [] else [last])
  }

  lemma {:induction false} CreatedDistinct(prev: seq<Table>, next: seq<Table>)
    requires DistinctNames(next)
    ensures DistinctNames(Created(prev, next))
  {
    if next != [] {
      var init, last := next[..|next| - 1], next[|next| - 1];
      assert DistinctNames(init);
      CreatedDistinct(prev, init);
      var r0 := Created(prev, init);
      forall t | t in r0
        ensures t.name != last.name
      {
        var i :| 0 <= i < |init| && init[i] == t;
        assert next[i] == t;
      }
    }
  }

  /** The last table of a list of distinct names shares its name with no earlier one. */
  lemma LastNameNew(tables: seq<Table>)
    requires DistinctNames(tables) && tables != []
    ensures DistinctNames(tables[..|tables| - 1])
    ensures NamesOf(tables) == NamesOf(tables[..|tables| - 1]) + {tables[|tables| - 1].name}
    ensures tables[|tables| - 1].name !in NamesOf(tables[..|tables| - 1])
  {
    var init, last := tables[..|tables| - 1], tables[|tables| - 1];
    assert tables == init + [last];
    forall t | t in init
      ensures t.name != last.name && t in tables
    {
      var i :| 0 <= i < |init| && init[i] == t;
      assert tables[i] == t;
    }
    assert last in tables;
    forall x | x in NamesOf(tables)
      ensures x in NamesOf(init) || x == last.name
    {
      var t :| t in tables && t.name == x;
      if t != last {
        assert t in init;
      }
    }
  }

  /** Creating tables of distinct names none of which is stored adds their names. */
  lemma {:induction false} CreatesApply(tables: seq<Table>, stored: set<string>)
    requires DistinctNames(tables) && NamesOf(tables) !! stored
    ensures Apply(Creates(tables), stored) == Some(stored + NamesOf(tables))
  {
    if tables == [] {
      assert NamesOf(tables) == {};
      assert stored + NamesOf(tables) == stored;
    } else {
      var init, last := tables[..|tables| - 1], tables[|tables| - 1];
      LastNameNew(tables);
      CreatesApply(init, stored);
      assert Creates(tables) == Creates(init) + [CreateTable(last)];
      ApplySnoc(Creates(init), CreateTable(last), stored);
      assert (stored + NamesOf(init)) + {last.name} == stored + NamesOf(tables);
    }
  }

  /** Dropping stored tables of distinct names removes their names. */
  lemma {:induction false} DropsApply(tables: seq<Table>, stored: set<string>)
    requires DistinctNames(tables) && NamesOf(tables) <= stored
    ensures Apply(Drops(tables), stored) == Some(stored - NamesOf(tables))
  {
    if tables == [] {
      assert NamesOf(tables) == {};
      assert stored - NamesOf(tables) == stored;
    } else {
      var init, last := tables[..|tables| - 1], tables[|tables| - 1];
      LastNameNew(tables);
      DropsApply(init, stored);
      assert Drops(tables) == Drops(init) + [DropTable(last)];
      ApplySnoc(Drops(init), DropTable(last), stored);
      assert last.name in stored - NamesOf(init);
      assert (stored - NamesOf(init)) - {last.name} == stored - NamesOf(tables);
    }
  }

  /** Tables of two consecutive versions that share a name are one object. */
  ghost predicate Linked(prev: seq<Table>, next: seq<Table>)
  {
    forall p, n {:trigger p in prev, n in next} :: p in prev && n in next && p.name == n.name ==> p == n
  }

  lemma ValidSequenceLinked(schemas: seq<Schema>, i: nat)
    requires ValidSequence(schemas) && 0 < i < |schemas|
    ensures Linked(schemas[i - 1].tables, schemas[i].tables)
  {
    forall p, n | p in schemas[i - 1].tables && n in schemas[i].tables && p.name == n.name
      ensures p == n
    {
      var j :| 0 <= j < |schemas[i - 1].tables| && schemas[i - 1].tables[j] == p;
      var k :| 0 <= k < |schemas[i].tables| && schemas[i].tables[k] == n;
      SharedNameSameTable(schemas, i, j, k);
    }
  }

  /** `migrateFromPrevious` of `next`, when it has one. */
  function MigrateStep(next: Schema): (r: seq<Action>)
    ensures Neutral(r)
  {
    if next.migrateFromPrevious then [RunMigrateFromPrevious(next.version)] else []
  }

  /**
   * One step of the step-wise migration: create the tables new in `next`,
   * run its migration, then drop the tables `next` no longer has.
   */
  function StepActions(prev: Schema, next: Schema): seq<Action>
  {
    Creates(Created(prev.tables, next.tables)) + MigrateStep(next) + Drops(Created(next.tables, prev.tables))
  }

  /**
   * One step turns the stored tables of `prev` into those of `next`, with
   * no create refused and no drop of a missing table. `other` are stored
   * tables no schema knows (the engine's own).
   */
  lemma StepReaches(prev: Schema, next: Schema, other: set<string>)
    requires DistinctNames(prev.tables) && DistinctNames(next.tables) && Linked(prev.tables, next.tables)
    requires Avoids(prev, other) && Avoids(next, other)
    ensures Apply(StepActions(prev, next), other + NamesOf(prev.tables)) == Some(other + NamesOf(next.tables))
  {
    var C, D := Created(prev.tables, next.tables), Created(next.tables, prev.tables);
    var S0 := other + NamesOf(prev.tables);
    CreatedDistinct(prev.tables, next.tables);
    CreatedDistinct(next.tables, prev.tables);
    assert NamesOf(C) !! S0 by {
      forall t | t in C
        ensures t.name !in S0
      {
      }
    }
    CreatesApply(C, S0);
    var S1 := S0 + NamesOf(C);
    ApplyNeutral(MigrateStep(next), S1);
    ApplyConcat(Creates(C), MigrateStep(next), S0);
    assert NamesOf(D) <= S1;
    DropsApply(D, S1);
    ApplyConcat(Creates(C) + MigrateStep(next), Drops(D), S0);
    var S2 := S1 - NamesOf(D);
    forall x | x in S2
      ensures x in other + NamesOf(next.tables)
    {
      if x in NamesOf(prev.tables) && x !in other {
        var p :| p in prev.tables && p.name == x;
        assert p in next.tables;
      }
    }
    forall x | x in other + NamesOf(next.tables)
      ensures x in S2
    {
      if x !in other {
        var n :| n in next.tables && n.name == x;
        if n !in prev.tables {
          assert n in C;
        }
      }
    }
    assert S2 == other + NamesOf(next.tables);
  }

  /** The logs one after the other. */
  function Concat(logs: seq<seq<Action>>): seq<Action>
  {
    if logs == [] then [] else Concat(logs[..|logs| - 1]) + logs[|logs| - 1]
  }

  /** Logs each of which leads from one state to the next lead, together, from the first to the last. */
  lemma {:induction false} ConcatReaches(logs: seq<seq<Action>>, states: seq<set<string>>)
    requires |states| == |logs| + 1
    requires forall i :: 0 <= i < |logs| ==> Apply(logs[i], states[i]) == Some(states[i + 1])
    ensures Apply(Concat(logs), states[0]) == Some(states[|logs|])
  {
    if logs != [] {
      var n := |logs| - 1;
      ConcatReaches(logs[..n], states[..n + 1]);
      ApplyChain(Concat(logs[..n]), logs[n], states[0], states[n], states[n + 1]);
    }
  }

  /** The step from each version index in `base .. top - 1` to the next. */
  function Steps(schemas: seq<Schema>, base: nat, top: nat): (r: seq<seq<Action>>)
    requires base <= top < |schemas|
    ensures |r| == top - base
  {
    seq(top - base, i requires 0 <= i < top - base => StepActions(schemas[base + i], schemas[base + i + 1]))
  }


  /** Every step from version index `base` up to `top`, in order. */
  function Stepwise(schemas: seq<Schema>, base: nat, top: nat): seq<Action>
    requires base <= top < |schemas|
  {
    Concat(Steps(schemas, base, top))
  }

  /** No step from a version to itself. */
  lemma StepwiseEmpty(schemas: seq<Schema>, base: nat)
    requires base < |schemas|
    ensures Stepwise(schemas, base, base) == []
  {
    assert Steps(schemas, base, base) == [];
  }

  /** The step-wise log up to `top` is the one up to `top - 1` and then the last step. */
  lemma StepwiseSnoc(schemas: seq<Schema>, base: nat, top: nat)
    requires base < top < |schemas|
    ensures Stepwise(schemas, base, top) == Stepwise(schemas, base, top - 1) + StepActions(schemas[top - 1], schemas[top])
  {
    var steps, init := Steps(schemas, base, top), Steps(schemas, base, top - 1);
    var last := StepActions(schemas[top - 1], schemas[top]);
    forall i | 0 <= i < |init|
      ensures steps[i] == init[i]
    {
    }
    assert steps == init + [last];
  }



  /** No schema from `base` to `top` uses any of `other`. */
  ghost predicate Foreign(schemas: seq<Schema>, base: nat, top: nat, other: set<string>)
    requires base <= top < |schemas|
  {
    forall i, t {:trigger t in schemas[i].tables} :: base <= i <= top && t in schemas[i].tables ==> t.name !in other
  }

  /** Two consecutive versions as an accepted sequence has them. */
  ghost predicate StepOk(prev: Schema, next: Schema)
  {
    DistinctNames(prev.tables) && DistinctNames(next.tables) && Linked(prev.tables, next.tables)
  }

  lemma ValidSequenceSteps(schemas: seq<Schema>)
    requires ValidSequence(schemas)
    ensures forall i :: 0 < i < |schemas| ==> StepOk(schemas[i - 1], schemas[i])
  {
    forall i | 0 < i < |schemas|
      ensures StepOk(schemas[i - 1], schemas[i])
    {
      ValidSequenceLinked(schemas, i);
    }
  }

  /** No table of `s` is named as one of `other`. */
  ghost predicate Avoids(s: Schema, other: set<string>)
  {
    forall t {:trigger t in s.tables} :: t in s.tables ==> t.name !in other
  }

  /** The versions from `base` to `top` are linked step by step and avoid `other`. */
  ghost predicate Chain(schemas: seq<Schema>, base: nat, top: nat, other: set<string>)
    requires base <= top < |schemas|
  {
    && (forall i :: base <= i < top ==> StepOkAt(schemas, i))
    && (forall i {:trigger Avoids(schemas[i], other)} :: base <= i <= top ==> Avoids(schemas[i], other))
  }

  /** The versions at index i and i + 1 are as a step of an accepted sequence. */
  ghost predicate StepOkAt(schemas: seq<Schema>, i: nat)
  {
    i + 1 < |schemas| && StepOk(schemas[i], schemas[i + 1])
  }

  lemma ValidSequenceChain(schemas: seq<Schema>, base: nat, top: nat, other: set<string>)
    requires ValidSequence(schemas) && base <= top < |schemas|
    requires Foreign(schemas, base, top, other)
    ensures Chain(schemas, base, top, other)
  {
    ValidSequenceSteps(schemas);
    forall i | base <= i < top
      ensures StepOkAt(schemas, i)
    {
      assert StepOk(schemas[i + 1 - 1], schemas[i + 1]);
    }
  }

  /** The step-wise migration turns the tables of the stored version into those of the target. */
  lemma StepwiseReaches(schemas: seq<Schema>, base: nat, top: nat, other: set<string>)
    requires base <= top < |schemas|
    requires Chain(schemas, base, top, other)
    ensures Apply(Stepwise(schemas, base, top), other + NamesOf(schemas[base].tables)) ==
            Some(other + NamesOf(schemas[top].tables))
  {
    var states := StoredStates(schemas, base, top, other);
    StepsReach(schemas, base, top, other, states);
    ConcatReaches(Steps(schemas, base, top), states);
  }

  /** The stored names at each version from `base` to `top`. */
  function StoredStates(schemas: seq<Schema>, base: nat, top: nat, other: set<string>): (r: seq<set<string>>)
    requires base <= top < |schemas|
    ensures |r| == top - base + 1
    ensures r[0] == other + NamesOf(schemas[base].tables)
    ensures r[top - base] == other + NamesOf(schemas[top].tables)
  {
    var r := seq(top - base + 1, i requires 0 <= i <= top - base => other + NamesOf(schemas[base + i].tables));
    assert r[0] == other + NamesOf(schemas[base + 0].tables);
    r
  }

  /** Each step of a chain leads from the stored names of its version to those of the next. */
  lemma StepsReach(schemas: seq<Schema>, base: nat, top: nat, other: set<string>, states: seq<set<string>>)
    requires base <= top < |schemas| && Chain(schemas, base, top, other)
    requires states == StoredStates(schemas, base, top, other)
    ensures forall i :: 0 <= i < top - base ==> Apply(Steps(schemas, base, top)[i], states[i]) == Some(states[i + 1])
  {
    forall i | 0 <= i < top - base
      ensures Apply(Steps(schemas, base, top)[i], states[i]) == Some(states[i + 1])
    {
      assert StepOkAt(schemas, base + i);
      assert Avoids(schemas[base + i], other) && Avoids(schemas[base + i + 1], other);
      StepReachesInChain(schemas, base, top, other, i);
      StateAt(schemas, base, top, other, i);
      StateAt(schemas, base, top, other, i + 1);
    }
  }

  lemma StateAt(schemas: seq<Schema>, base: nat, top: nat, other: set<string>, i: nat)
    requires base <= top < |schemas| && i <= top - base
    ensures StoredStates(schemas, base, top, other)[i] == other + NamesOf(schemas[base + i].tables)
  {
  }

  /** Step i of a chain reaches the tables of its next version. */
  lemma StepReachesInChain(schemas: seq<Schema>, base: nat, top: nat, other: set<string>, i: nat)
    requires base <= top < |schemas| && i < top - base
    requires StepOkAt(schemas, base + i)
    requires Avoids(schemas[base + i], other) && Avoids(schemas[base + i + 1], other)
    ensures Apply(Steps(schemas, base, top)[i], other + NamesOf(schemas[base + i].tables)) ==
            Some(other + NamesOf(schemas[base + i + 1].tables))
  {
    var prev, next := schemas[base + i], schemas[base + i + 1];
    assert Steps(schemas, base, top)[i] == StepActions(prev, next);
    StepReaches(prev, next, other);
  }

  /**
   * The callbacks the step-wise migration queues: each version after the
   * stored one that has `afterSuccessfulCreationOrMigration`, in order.
   */
  function StepwiseCallbacks(schemas: seq<Schema>, base: nat, top: nat): (r: seq<Int32>)
    requires base <= top < |schemas|
    ensures |r| <= top - base
    ensures forall i :: (base < i <= top && schemas[i].afterSuccessfulCreationOrMigration ==> schemas[i].version in r)
    ensures forall v :: (v in r ==> exists i :: base < i <= top && schemas[i].version == v &&
                                            schemas[i].afterSuccessfulCreationOrMigration)
    decreases top
  {
    if top == base then []
    else StepwiseCallbacks(schemas, base, top - 1) +
         (if schemas[top].afterSuccessfulCreationOrMigration then [schemas[top].version] else [])
  }

  /** `tableName.startsWith("sqlite_")`: a table of the engine itself. */
  predicate IsEngineTable(name: string)
  {
    |name| >= 7 && name[..7] == "sqlite_"
  }

  /** A valid table name is never the name of an engine table. */
  lemma ValidNameNotEngine(name: string)
    requires ValidName(name)
    ensures !IsEngineTable(name)
  {
    if |name| >= 7 {
      assert IsNameChar(name[6]);
      assert name[..7][6] == name[6];
    }
  }

  /**
   * The scan of `sqlite_schema`: each row whose name is not null and does
   * not start with "sqlite_" is dropped.
   */
  function StoredDrops(rows: seq<Option<string>>): (r: seq<Action>)
    ensures forall i :: 0 <= i < |r| ==> r[i].DropStoredTable? && !IsEngineTable(r[i].name) && Some(r[i].name) in rows
  {
    if rows == [] then []
    else
      var last := rows[|rows| - 1];
      StoredDrops(rows[..|rows| - 1]) +
      (if last.Some? && !IsEngineTable(last.value) then [DropStoredTable(last.value)] else [])
  }

  /** The names of the rows, skipping nulls. */
  function RowNames(rows: seq<Option<string>>): set<string>
  {
    set r | r in rows && r.Some? :: r.value
  }

  /** No name is listed twice. */
  predicate DistinctRows(rows: seq<Option<string>>)
  {
    forall i, j :: 0 <= i < j < |rows| && rows[i].Some? ==> rows[i] != rows[j]
  }

  /** The rows list each stored name once (and nothing else). */
  ghost predicate Lists(rows: seq<Option<string>>, stored: set<string>)
  {
    RowNames(rows) == stored && DistinctRows(rows)
  }

  function UserTables(stored: set<string>): set<string>
  {
    set n | n in stored && !IsEngineTable(n)
  }

  lemma {:induction false} StoredDropsApply(rows: seq<Option<string>>, stored: set<string>)
    requires RowNames(rows) <= stored && DistinctRows(rows)
    ensures Apply(StoredDrops(rows), stored) == Some(stored - UserTables(RowNames(rows)))
  {
    if rows == [] {
      assert RowNames(rows) == {};
      assert stored - UserTables(RowNames(rows)) == stored;
    } else {
      var init, last := rows[..|rows| - 1], rows[|rows| - 1];
      RowsSnoc(rows);
      StoredDropsApply(init, stored);
      var dropped := UserTables(RowNames(init));
      if last.Some? && !IsEngineTable(last.value) {
        ApplySnoc(StoredDrops(init), DropStoredTable(last.value), stored);
        UserTablesAdd(RowNames(init), last.value);
        DropOneMore(stored, dropped, last.value);
      } else {
        assert StoredDrops(init) + [] == StoredDrops(init);
        if last.Some? {
          UserTablesAdd(RowNames(init), last.value);
          assert UserTables(RowNames(rows)) == dropped;
        } else {
          assert RowNames(rows) == RowNames(init);
        }
      }
    }
  }

  /** Removing one more stored name that was not yet removed. */
  lemma DropOneMore(stored: set<string>, dropped: set<string>, x: string)
    requires x in stored && x !in dropped
    ensures x in stored - dropped
    ensures (stored - dropped) - {x} == stored - (dropped + {x})
  {
  }

  /** The rows without their last one: their names, their drops, and the last name is new. */
  lemma RowsSnoc(rows: seq<Option<string>>)
    requires rows != []
    requires DistinctRows(rows)
    ensures DistinctRows(rows[..|rows| - 1])
    ensures RowNames(rows) == RowNames(rows[..|rows| - 1]) + (if rows[|rows| - 1].Some? then {rows[|rows| - 1].value} else {})
    ensures rows[|rows| - 1].Some? ==> rows[|rows| - 1].value !in RowNames(rows[..|rows| - 1])
    ensures StoredDrops(rows) == StoredDrops(rows[..|rows| - 1]) +
              (if rows[|rows| - 1].Some? && !IsEngineTable(rows[|rows| - 1].value) then [DropStoredTable(rows[|rows| - 1].value)] else [])
  {
    RowNamesLast(rows);
    DistinctLast(rows);
  }

  lemma RowNamesLast(rows: seq<Option<string>>)
    requires rows != []
    ensures RowNames(rows) == RowNames(rows[..|rows| - 1]) + (if rows[|rows| - 1].Some? then {rows[|rows| - 1].value} else {})
  {
    assert rows == rows[..|rows| - 1] + [rows[|rows| - 1]];
    RowNamesSnoc(rows[..|rows| - 1], rows[|rows| - 1]);
  }

  lemma DistinctLast(rows: seq<Option<string>>)
    requires rows != [] && DistinctRows(rows)
    ensures DistinctRows(rows[..|rows| - 1])
    ensures rows[|rows| - 1].Some? ==> rows[|rows| - 1].value !in RowNames(rows[..|rows| - 1])
  {
    assert rows == rows[..|rows| - 1] + [rows[|rows| - 1]];
    DistinctInit(rows[..|rows| - 1], rows[|rows| - 1]);
  }

  /** The names of rows extended by one row. */
  lemma RowNamesSnoc(init: seq<Option<string>>, last: Option<string>)
    ensures RowNames(init + [last]) == RowNames(init) + (if last.Some? then {last.value} else {})
  {
    var rows := init + [last];
    forall r | r in rows
      ensures r in init || r == last
    {
      var k :| 0 <= k < |rows| && rows[k] == r;
      if k < |init| {
        assert init[k] == r;
      }
    }
    assert last in rows;
    forall r | r in init
      ensures r in rows
    {
      var k :| 0 <= k < |init| && init[k] == r;
      assert rows[k] == r;
    }
  }

  /** Distinct rows stay distinct without their last row, which names nothing listed before. */
  lemma DistinctInit(init: seq<Option<string>>, last: Option<string>)
    requires DistinctRows(init + [last])
    ensures DistinctRows(init)
    ensures last.Some? ==> last.value !in RowNames(init)
  {
    var rows := init + [last];
    forall i, j | 0 <= i < j < |init| && init[i].Some?
      ensures init[i] != init[j]
    {
      assert rows[i] == init[i] && rows[j] == init[j];
    }
    if last.Some? {
      forall r | r in init && r.Some?
        ensures r != last
      {
        var k :| 0 <= k < |init| && init[k] == r;
        assert rows[k] == r && rows[|init|] == last;
      }
    }
  }

  /** One more listed name adds itself to the user tables unless it belongs to the engine. */
  lemma UserTablesAdd(names: set<string>, x: string)
    ensures UserTables(names + {x}) == UserTables(names) + (if IsEngineTable(x) then {} else {x})
  {
  }

  /**
   * The fresh creation: when a version is stored (`current != 0`), every
   * listed table not belonging to the engine is dropped; then every target
   * table is created and `createdNew` runs.
   */
  function FreshActions(target: Schema, current: int, rows: seq<Option<string>>): seq<Action>
  {
    (if current != 0 then [ListStoredTables] + StoredDrops(rows) else []) +
    Creates(target.tables) +
    (if target.createdNew then [RunCreatedNew(target.version)] else [])
  }

  /** The target's own callback, queued by the fresh creation. */
  function FreshCallbacks(target: Schema): (r: seq<Int32>)
    ensures r == [] || r == [target.version]
    ensures r != [] <==> target.afterSuccessfulCreationOrMigration
  {
    if target.afterSuccessfulCreationOrMigration then [target.version] else []
  }

  /**
   * Over a stored version the chain does not know, the fresh creation
   * leaves exactly the engine's own tables and the target's.
   */
  lemma FreshReplaces(target: Schema, current: int, rows: seq<Option<string>>, stored: set<string>)
    requires current != 0 && Lists(rows, stored)
    requires DistinctNames(target.tables) && forall t :: t in target.tables ==> ValidName(t.name)
    ensures Apply(FreshActions(target, current, rows), stored) ==
            Some((stored - UserTables(stored)) + NamesOf(target.tables))
  {
    var kept := stored - UserTables(stored);
    var names := NamesOf(target.tables);
    var drops, creates := [ListStoredTables] + StoredDrops(rows), Creates(target.tables);
    var created := if target.createdNew then [RunCreatedNew(target.version)] else [];
    assert FreshActions(target, current, rows) == drops + creates + created;
    StoredDropsApply(rows, stored);
    assert Apply([ListStoredTables], stored) == Some(stored) by {
      assert [ListStoredTables][..0] == [];
    }
    ApplyConcat([ListStoredTables], StoredDrops(rows), stored);
    assert Apply(drops, stored) == Some(kept);
    NewNamesAvoidEngine(target.tables, kept, stored);
    CreatesApply(target.tables, kept);
    ApplyConcat(drops, creates, stored);
    assert Apply(drops + creates, stored) == Some(kept + names);
    ApplyNeutral(created, kept + names);
    ApplyConcat(drops + creates, created, stored);
  }

  /** Valid table names are not engine tables, so none is among the engine tables kept. */
  lemma NewNamesAvoidEngine(tables: seq<Table>, kept: set<string>, stored: set<string>)
    requires forall t :: t in tables ==> ValidName(t.name)
    requires kept == stored - UserTables(stored)
    ensures NamesOf(tables) !! kept
  {
    forall t | t in tables
      ensures t.name !in kept
    {
      ValidNameNotEngine(t.name);
    }
  }

  /** On a new database (`current == 0`) the fresh creation adds the target's tables to what is there. */
  lemma FreshCreates(target: Schema, rows: seq<Option<string>>, stored: set<string>)
    requires DistinctNames(target.tables) && NamesOf(target.tables) !! stored
    ensures Apply(FreshActions(target, 0, rows), stored) == Some(stored + NamesOf(target.tables))
  {
    var creates := Creates(target.tables);
    var created := if target.createdNew then [RunCreatedNew(target.version)] else [];
    assert FreshActions(target, 0, rows) == creates + created by {
      assert [] + creates == creates;
    }
    CreatesApply(target.tables, stored);
    ApplyNeutral(created, stored + NamesOf(target.tables));
    ApplyConcat(creates, created, stored);
  }

  /** `config.schema.indexOfFirst { it.version == version }`. */
  function IndexOfFirst(schemas: seq<Schema>, version: int): (r: int)
    ensures -1 <= r < |schemas|
    ensures r == -1 <==> forall i :: 0 <= i < |schemas| ==> schemas[i].version != version
    ensures r >= 0 ==> schemas[r].version == version && forall i :: 0 <= i < r ==> schemas[i].version != version
  {
    if schemas == [] then -1
    else if schemas[0].version == version then 0
    else
      var r := IndexOfFirst(schemas[1..], version);
      assert forall i :: 0 < i < |schemas| ==> schemas[i] == schemas[1..][i - 1];
      if r < 0 then -1 else r + 1
  }
}
