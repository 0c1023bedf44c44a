/**
 * The write observers of the SQLite backends (both generations share this
 * code). Each table has a list of observers; after a successful write
 * transaction every observer on a used table is signalled once, even when
 * it observes several of the used tables, because the observer remembers
 * the stamp of the last write that signalled it.
 */
module WriteObservers {

  /**
   * `WriteObserver`. Its channel holds at most one element and drops the
   * oldest on overflow, so it is a flag: set by `trigger`, taken by
   * `checkWrite`.
   */
  class WriteObserver {
    var lastTrigger: int
    var signalled: bool

    constructor ()
      ensures lastTrigger == 0 && !signalled
    {
      lastTrigger := 0;
      signalled := false;
    }

    /** `trigger`: `trySend` sets the flag whether or not it was set. */
    method Trigger()
      modifies this
      ensures signalled && lastTrigger == old(lastTrigger)
    {
      signalled := true;
    }

    /** `checkWrite`: `tryReceive` reports a pending signal and takes it. */
    method CheckWrite() returns (r: bool)
      modifies this
      ensures r == old(signalled) && !signalled && lastTrigger == old(lastTrigger)
    {
      r := signalled;
      signalled := false;
    }
  }

  /** Any number of triggers, then two checks: the first reports a write exactly when there was a trigger, the second none. */
  method TriggersCoalesce(o: WriteObserver, n: nat) returns (first: bool, second: bool)
    requires !o.signalled
    modifies o
    ensures first == (n > 0) && !second
  {
    for i := 0 to n
      invariant o.signalled == (i > 0)
    {
      o.Trigger();
    }
    first := o.CheckWrite();
    second := o.CheckWrite();
  }

  /** The observer list of a table; a missing key reads as an empty list. */
  function ListOf<T>(m: map<T, seq<WriteObserver>>, t: T): seq<WriteObserver>
  {
    if t in m then m[t] else []
  }

  /** How often `t` is listed. */
  function Occurrences<T(==)>(tables: seq<T>, t: T): nat
  {
    if tables == [] then 0
    else Occurrences(tables[..|tables| - 1], t) + (if tables[|tables| - 1] == t then 1 else 0)
  }

  function Copies<X>(x: X, n: nat): (r: seq<X>)
    ensures |r| == n && forall i :: 0 <= i < n ==> r[i] == x
  {
    if n == 0 then [] else Copies(x, n - 1) + [x]
  }

  /** `list.remove(o)`: drops the first occurrence of `o`, if any. */
  function RemoveFirst(list: seq<WriteObserver>, o: WriteObserver): (r: seq<WriteObserver>)
    ensures o !in list ==> r == list
    ensures o in list ==> |r| == |list| - 1
    ensures forall x :: x in r ==> x in list
  {
    if list == [] then []
    else if list[0] == o then list[1..]
    else [list[0]] + RemoveFirst(list[1..], o)
  }

  /** Removing `o` from a list that holds it only in a run at the end shortens the run by one. */
  lemma {:induction false} RemoveFirstFromRun(list: seq<WriteObserver>, o: WriteObserver, n: nat)
    requires o !in list && n > 0
    ensures RemoveFirst(list + Copies(o, n), o) == list + Copies(o, n - 1)
  {
    if list == [] {
      assert [] + Copies(o, n) == Copies(o, n);
      assert Copies(o, n) == [o] + Copies(o, n - 1);
    } else {
      assert (list + Copies(o, n))[1..] == list[1..] + Copies(o, n);
      RemoveFirstFromRun(list[1..], o, n);
      assert list == [list[0]] + list[1..];
    }
  }

  /** `n` rounds of `list.remove(o)`. */
  ghost function RemoveAll(list: seq<WriteObserver>, o: WriteObserver, n: nat): seq<WriteObserver>
  {
    if n == 0 then list else RemoveFirst(RemoveAll(list, o, n - 1), o)
  }

  /** Removing `n` copies of `o` from a run of `m` copies at the end of a list free of `o` leaves `m - n`. */
  lemma {:induction false} RemoveAllFromRun(list: seq<WriteObserver>, o: WriteObserver, m: nat, n: nat)
    requires o !in list && n <= m
    ensures RemoveAll(list + Copies(o, m), o, n) == list + Copies(o, m - n)
  {
    if n > 0 {
      RemoveAllFromRun(list, o, m, n - 1);
      RemoveFirstFromRun(list, o, m - n + 1);
    }
  }

  /** The observers listed anywhere in `m`. */
  ghost function AllIn<T>(m: map<T, seq<WriteObserver>>): set<WriteObserver>
  {
    set t, o | t in m && o in m[t] :: o
  }

  /** Appending `o` to one list adds exactly `o` to the listed observers. */
  lemma AllInAppend<T>(m: map<T, seq<WriteObserver>>, t: T, o: WriteObserver)
    ensures AllIn(m[t := ListOf(m, t) + [o]]) == AllIn(m) + {o}
  {
    var m' := m[t := ListOf(m, t) + [o]];
    assert o in m'[t];
    forall x | x in AllIn(m')
      ensures x in AllIn(m) + {o}
    {
      var u :| u in m' && x in m'[u];
      if u != t {
        assert x in m[u];
      } else if x != o {
        assert x in m[t];
      }
    }
    forall x | x in AllIn(m)
      ensures x in AllIn(m')
    {
      var u :| u in m && x in m[u];
      assert x in m'[u];
    }
  }

  function Elements<T>(s: seq<T>): set<T>
  {
    set x | x in s
  }

  /** Removing `o` from one list lists no new observer. */
  lemma AllInRemove<T>(m: map<T, seq<WriteObserver>>, t: T, o: WriteObserver)
    requires t in m
    ensures AllIn(m[t := RemoveFirst(m[t], o)]) <= AllIn(m)
  {
    var m' := m[t := RemoveFirst(m[t], o)];
    forall x | x in AllIn(m')
      ensures x in AllIn(m)
    {
      var u :| u in m' && x in m'[u];
      assert x in m[u];
    }
  }

  /** `after` is `before` with one `o` appended per occurrence of a table in `tables`. */
  ghost predicate AddedPerTable<T>(before: map<T, seq<WriteObserver>>, after: map<T, seq<WriteObserver>>,
                                        tables: seq<T>, o: WriteObserver)
  {
    forall t | t in before.Keys + after.Keys + Elements(tables) ::
      ListOf(after, t) == ListOf(before, t) + Copies(o, Occurrences(tables, t))
  }

  lemma {:induction false} OccurrencesAbsent<T>(tables: seq<T>, t: T)
    requires t !in tables
    ensures Occurrences(tables, t) == 0
  {
    if tables != [] {
      assert tables[..|tables| - 1] <= tables;
      OccurrencesAbsent(tables[..|tables| - 1], t);
    }
  }

  /** One round of the registration loop, for one table `u`. */
  lemma AppendStepAt<T>(orig: map<T, seq<WriteObserver>>, prev: map<T, seq<WriteObserver>>, next: map<T, seq<WriteObserver>>,
                        tables: seq<T>, i: nat, o: WriteObserver, u: T)
    requires i < |tables| && next == prev[tables[i] := ListOf(prev, tables[i]) + [o]]
    requires ListOf(prev, u) == ListOf(orig, u) + Copies(o, Occurrences(tables[..i], u))
    ensures ListOf(next, u) == ListOf(orig, u) + Copies(o, Occurrences(tables[..i + 1], u))
  {
    assert tables[..i + 1][..i] == tables[..i];
    var n := Occurrences(tables[..i], u);
    if u == tables[i] {
      assert Occurrences(tables[..i + 1], u) == n + 1;
      assert Copies(o, n + 1) == Copies(o, n) + [o];
    } else {
      assert Occurrences(tables[..i + 1], u) == n;
    }
  }

  /** One round of the registration loop adds `tables[i]` to the keys. */
  lemma AppendKeys<T>(orig: map<T, seq<WriteObserver>>, prev: map<T, seq<WriteObserver>>, next: map<T, seq<WriteObserver>>,
                      tables: seq<T>, i: nat, o: WriteObserver)
    requires i < |tables| && next == prev[tables[i] := ListOf(prev, tables[i]) + [o]]
    requires prev.Keys == orig.Keys + Elements(tables[..i])
    ensures next.Keys == orig.Keys + Elements(tables[..i + 1])
  {
    assert tables[..i + 1] == tables[..i] + [tables[i]];
  }

  /** One round of the registration loop: the list of `tables[i]` gains one more copy of `o`. */
  lemma AppendStep<T>(orig: map<T, seq<WriteObserver>>, prev: map<T, seq<WriteObserver>>, next: map<T, seq<WriteObserver>>,
                      tables: seq<T>, i: nat, o: WriteObserver)
    requires i < |tables| && next == prev[tables[i] := ListOf(prev, tables[i]) + [o]]
    requires AddedPerTable(orig, prev, tables[..i], o)
    ensures AddedPerTable(orig, next, tables[..i + 1], o)
  {
    forall u | u in orig.Keys + next.Keys + Elements(tables[..i + 1])
      ensures ListOf(next, u) == ListOf(orig, u) + Copies(o, Occurrences(tables[..i + 1], u))
    {
      if u in orig.Keys + prev.Keys + Elements(tables[..i]) {
        assert ListOf(prev, u) == ListOf(orig, u) + Copies(o, Occurrences(tables[..i], u));
      } else {
        OccurrencesAbsent(tables[..i], u);
        assert ListOf(prev, u) == [] == ListOf(orig, u);
      }
      AppendStepAt(orig, prev, next, tables, i, o, u);
    }
  }

  /** `tableObservers[table]?.remove(observer)`: a table without a list is left alone. */
  function RemoveFrom<T>(m: map<T, seq<WriteObserver>>, t: T, o: WriteObserver): (r: map<T, seq<WriteObserver>>)
    ensures r.Keys == m.Keys
  {
    if t in m then m[t := RemoveFirst(m[t], o)] else m
  }

  /** `after` is `before` with `o` removed once per occurrence of a table in `tables`. */
  ghost predicate RemovedPerTable<T>(before: map<T, seq<WriteObserver>>, after: map<T, seq<WriteObserver>>,
                                     tables: seq<T>, o: WriteObserver)
  {
    && after.Keys == before.Keys
    && forall t :: t in after ==> after[t] == RemoveAll(before[t], o, Occurrences(tables, t))
  }

  /** One round of the unregistration loop: the list of `tables[i]` loses one more `o`. */
  lemma RemoveStep<T>(orig: map<T, seq<WriteObserver>>, prev: map<T, seq<WriteObserver>>,
                      tables: seq<T>, i: nat, o: WriteObserver)
    requires i < |tables| && RemovedPerTable(orig, prev, tables[..i], o)
    ensures RemovedPerTable(orig, RemoveFrom(prev, tables[i], o), tables[..i + 1], o)
  {
    var next := RemoveFrom(prev, tables[i], o);
    assert tables[..i + 1] == tables[..i] + [tables[i]];
    assert tables[..i + 1][..i] == tables[..i];
    forall u | u in next
      ensures next[u] == RemoveAll(orig[u], o, Occurrences(tables[..i + 1], u))
    {
      var n := Occurrences(tables[..i], u);
      if u == tables[i] {
        assert Occurrences(tables[..i + 1], u) == n + 1;
      } else {
        assert Occurrences(tables[..i + 1], u) == n;
      }
    }
  }

  lemma {:induction false} OccurrencesPresent<T>(tables: seq<T>, t: T)
    requires t in tables
    ensures Occurrences(tables, t) > 0
  {
    if tables[|tables| - 1] != t {
      assert tables == tables[..|tables| - 1] + [tables[|tables| - 1]];
      OccurrencesPresent(tables[..|tables| - 1], t);
    }
  }

  /** `list` with every `o` left out, the others in order. */
  function Without(list: seq<WriteObserver>, o: WriteObserver): (r: seq<WriteObserver>)
    ensures o !in r
  {
    if list == [] then [] else (if list[0] == o then [] else [list[0]]) + Without(list[1..], o)
  }

  /** How often `o` is listed. */
  function Count(list: seq<WriteObserver>, o: WriteObserver): (r: nat)
    ensures r == 0 <==> o !in list
  {
    if list == [] then 0 else (if list[0] == o then 1 else 0) + Count(list[1..], o)
  }

  lemma {:induction false} WithoutConcat(a: seq<WriteObserver>, b: seq<WriteObserver>, o: WriteObserver)
    ensures Without(a + b, o) == Without(a, o) + Without(b, o)
    ensures Count(a + b, o) == Count(a, o) + Count(b, o)
  {
    if a == [] {
      assert a + b == b;
    } else {
      var c := a + b;
      assert c[0] == a[0] && c[1..] == a[1..] + b;
      WithoutConcat(a[1..], b, o);
      var head := if a[0] == o then [] else [a[0]];
      assert Without(c, o) == head + (Without(a[1..], o) + Without(b, o));
      assert Without(a, o) == head + Without(a[1..], o);
    }
  }

  lemma {:induction false} WithoutAbsent(list: seq<WriteObserver>, o: WriteObserver)
    requires o !in list
    ensures Without(list, o) == list
  {
    if list != [] {
      WithoutAbsent(list[1..], o);
      assert list == [list[0]] + list[1..];
    }
  }

  /** Leaving out `o` and removing the first of another observer commute. */
  lemma {:induction false} WithoutRemoveFirst(list: seq<WriteObserver>, x: WriteObserver, o: WriteObserver)
    requires x != o
    ensures Without(RemoveFirst(list, x), o) == RemoveFirst(Without(list, o), x)
  {
    if list != [] {
      var head, rest := list[0], list[1..];
      var keep := if head == o then [] else [head];
      assert Without(list, o) == keep + Without(rest, o);
      if head == x {
        assert RemoveFirst(list, x) == rest;
        assert keep == [x];
        var w := [x] + Without(rest, o);
        assert w[0] == x && w[1..] == Without(rest, o);
      } else {
        var removed := [head] + RemoveFirst(rest, x);
        assert RemoveFirst(list, x) == removed;
        assert removed[0] == head && removed[1..] == RemoveFirst(rest, x);
        WithoutRemoveFirst(rest, x, o);
        assert Without(removed, o) == keep + RemoveFirst(Without(rest, o), x);
        if head == o {
          assert keep + RemoveFirst(Without(rest, o), x) == RemoveFirst(Without(rest, o), x);
          assert Without(list, o) == Without(rest, o);
        } else {
          var w := [head] + Without(rest, o);
          assert w[0] == head && w[1..] == Without(rest, o);
          assert RemoveFirst(w, x) == [head] + RemoveFirst(Without(rest, o), x);
        }
      }
    }
  }

  /** Removing the first of another observer keeps how often `o` is listed. */
  lemma {:induction false} CountRemoveFirst(list: seq<WriteObserver>, x: WriteObserver, o: WriteObserver)
    requires x != o
    ensures Count(RemoveFirst(list, x), o) == Count(list, o)
  {
    if list != [] && list[0] != x {
      var removed := [list[0]] + RemoveFirst(list[1..], x);
      assert removed[0] == list[0] && removed[1..] == RemoveFirst(list[1..], x);
      CountRemoveFirst(list[1..], x, o);
    }
  }

  /** Removing the first `o` changes nothing once every `o` is left out, and counts one `o` fewer. */
  lemma {:induction false} WithoutRemoveFirstOwn(list: seq<WriteObserver>, o: WriteObserver)
    requires o in list
    ensures Without(RemoveFirst(list, o), o) == Without(list, o)
    ensures Count(RemoveFirst(list, o), o) == Count(list, o) - 1
  {
    if list[0] != o {
      var head, rest := list[0], list[1..];
      assert o in rest;
      var removed := [head] + RemoveFirst(rest, o);
      assert removed[0] == head && removed[1..] == RemoveFirst(rest, o);
      WithoutRemoveFirstOwn(rest, o);
    }
  }

  /** Removing copies of another observer keeps how often `o` is listed, and commutes with leaving `o` out. */
  lemma {:induction false} RemoveAllOther(list: seq<WriteObserver>, x: WriteObserver, o: WriteObserver, n: nat)
    requires x != o
    ensures Count(RemoveAll(list, x, n), o) == Count(list, o)
    ensures Without(RemoveAll(list, x, n), o) == RemoveAll(Without(list, o), x, n)
  {
    if n > 0 {
      RemoveAllOther(list, x, o, n - 1);
      WithoutRemoveFirst(RemoveAll(list, x, n - 1), x, o);
      CountRemoveFirst(RemoveAll(list, x, n - 1), x, o);
    }
  }

  /** Removing `o` as often as it is listed leaves the list with every `o` left out. */
  lemma RemoveAllOwn(list: seq<WriteObserver>, o: WriteObserver, n: nat)
    requires Count(list, o) == n
    ensures RemoveAll(list, o, n) == Without(list, o)
  {
    RemoveAllOwnPrefix(list, o, n);
    WithoutAbsent(RemoveAll(list, o, n), o);
  }

  lemma {:induction false} RemoveAllOwnPrefix(list: seq<WriteObserver>, o: WriteObserver, k: nat)
    requires k <= Count(list, o)
    ensures Count(RemoveAll(list, o, k), o) == Count(list, o) - k
    ensures Without(RemoveAll(list, o, k), o) == Without(list, o)
  {
    if k > 0 {
      RemoveAllOwnPrefix(list, o, k - 1);
      WithoutRemoveFirstOwn(RemoveAll(list, o, k - 1), o);
    }
  }

  lemma {:induction false} RemoveAllEmpty(x: WriteObserver, n: nat)
    ensures RemoveAll([], x, n) == []
  {
    if n > 0 {
      RemoveAllEmpty(x, n - 1);
    }
  }

  /** `n` copies of `x`: counted `n` times, and all left out when `x` is. */
  lemma {:induction false} CopiesCounted(x: WriteObserver, n: nat)
    ensures Count(Copies(x, n), x) == n && Without(Copies(x, n), x) == []
  {
    if n > 0 {
      var c := Copies(x, n);
      assert c[0] == x && c[1..] == Copies(x, n - 1);
      CopiesCounted(x, n - 1);
    }
  }

  // ---------------------------------------------------------------------
  // The block of `observeDatabaseWrites`

  /** What the block does while its observer is registered, one step at a time. */
  datatype BlockStep<T> =
    /** A write transaction commits and notifies the observers of `usedTables`. */
    | Write(usedTables: seq<T>)
    /** The block calls `checkWrite()` on its observer. */
    | Check
    /** Another observer is registered on `intoTables` (a nested `observeDatabaseWrites`, say). */
    | Observe(intoTables: seq<T>, other: WriteObserver)
    /** and unregistered from them. */
    | Unobserve(intoTables: seq<T>, other: WriteObserver)

  /** The other observers the steps register or unregister. */
  function StepObservers<T>(steps: seq<BlockStep<T>>): set<WriteObserver>
  {
    set i | 0 <= i < |steps| && !steps[i].Write? && !steps[i].Check? :: steps[i].other
  }

  /** How many writes the steps commit. */
  function Writes<T>(steps: seq<BlockStep<T>>): (r: nat)
    ensures r <= |steps|
  {
    if steps == [] then 0 else Writes(steps[..|steps| - 1]) + (if steps[|steps| - 1].Write? then 1 else 0)
  }

  /** A table of `usedTables` is one of `tables`. */
  predicate Shares<T(==)>(usedTables: seq<T>, tables: seq<T>)
  {
    exists i :: 0 <= i < |usedTables| && usedTables[i] in tables
  }

  /** Whether the observer on `tables` holds a signal after the steps: a write on one of them since the last check. */
  function Pending<T(==)>(tables: seq<T>, steps: seq<BlockStep<T>>): bool
  {
    if steps == [] then false
    else
      var before := Pending(tables, steps[..|steps| - 1]);
      match steps[|steps| - 1]
      case Write(usedTables) => before || Shares(usedTables, tables)
      case Check => false
      case _ => before
  }

  /** What the block's `checkWrite` calls answer, one entry per step (`false` for the other steps). */
  function Answers<T(==)>(tables: seq<T>, steps: seq<BlockStep<T>>): (r: seq<bool>)
    ensures |r| == |steps|
  {
    if steps == [] then []
    else
      var init := steps[..|steps| - 1];
      Answers(tables, init) + [steps[|steps| - 1].Check? && Pending(tables, init)]
  }

  /** Each answer: the step is a check and a write on an observed table came since the previous one. */
  lemma {:induction false} AnswersAt<T>(tables: seq<T>, steps: seq<BlockStep<T>>)
    ensures forall i :: 0 <= i < |steps| ==> Answers(tables, steps)[i] == (steps[i].Check? && Pending(tables, steps[..i]))
  {
    if steps != [] {
      var init := steps[..|steps| - 1];
      AnswersAt(tables, init);
      forall i | 0 <= i < |init|
        ensures steps[..i] == init[..i]
      {
      }
    }
  }

  /** The signal, read independently: some write on an observed table has no check after it. */
  lemma {:induction false} PendingIffUncheckedWrite<T>(tables: seq<T>, steps: seq<BlockStep<T>>)
    ensures Pending(tables, steps) <==>
      exists i :: 0 <= i < |steps| && steps[i].Write? && Shares(steps[i].usedTables, tables) &&
        forall j :: i < j < |steps| ==> !steps[j].Check?
  {
    if steps != [] {
      var init, last := steps[..|steps| - 1], steps[|steps| - 1];
      PendingIffUncheckedWrite(tables, init);
      assert forall i :: 0 <= i < |init| ==> init[i] == steps[i];
      if Pending(tables, steps) && !(last.Write? && Shares(last.usedTables, tables)) {
        var i :| 0 <= i < |init| && init[i].Write? && Shares(init[i].usedTables, tables) &&
          forall j :: i < j < |init| ==> !init[j].Check?;
        assert forall j :: i < j < |steps| ==> !steps[j].Check?;
      }
    }
  }

  /** The list of table `t` after the steps, starting from `list`: only the other observers' registrations change it. */
  ghost function ListAfter<T>(list: seq<WriteObserver>, t: T, steps: seq<BlockStep<T>>): seq<WriteObserver>
  {
    if steps == [] then list
    else
      var before := ListAfter(list, t, steps[..|steps| - 1]);
      match steps[|steps| - 1]
      case Observe(intoTables, other) => before + Copies(other, Occurrences(intoTables, t))
      case Unobserve(intoTables, other) => RemoveAll(before, other, Occurrences(intoTables, t))
      case _ => before
  }

  /** The list of `t` after one more step. */
  lemma ListAfterSnoc<T>(list: seq<WriteObserver>, t: T, done: seq<BlockStep<T>>, step: BlockStep<T>)
    ensures step.Observe? ==>
      ListAfter(list, t, done + [step]) == ListAfter(list, t, done) + Copies(step.other, Occurrences(step.intoTables, t))
    ensures step.Unobserve? ==>
      ListAfter(list, t, done + [step]) == RemoveAll(ListAfter(list, t, done), step.other, Occurrences(step.intoTables, t))
    ensures step.Write? || step.Check? ==> ListAfter(list, t, done + [step]) == ListAfter(list, t, done)
  {
    assert (done + [step])[..|done|] == done;
  }

  /** The tables the steps register another observer on. */
  function Touched<T>(steps: seq<BlockStep<T>>): set<T>
  {
    set i, t | 0 <= i < |steps| && steps[i].Observe? && t in steps[i].intoTables :: t
  }

  lemma TouchedSnoc<T>(done: seq<BlockStep<T>>, step: BlockStep<T>)
    ensures Touched(done + [step]) == Touched(done) + (if step.Observe? then Elements(step.intoTables) else {})
  {
    var steps := done + [step];
    forall u | u in Touched(steps)
      ensures u in Touched(done) + (if step.Observe? then Elements(step.intoTables) else {})
    {
      var i :| 0 <= i < |steps| && steps[i].Observe? && u in steps[i].intoTables;
      if i < |done| {
        assert steps[i] == done[i];
      }
    }
    forall u | u in Touched(done)
      ensures u in Touched(steps)
    {
      var i :| 0 <= i < |done| && done[i].Observe? && u in done[i].intoTables;
      assert steps[i] == done[i];
    }
    if step.Observe? {
      forall u | u in Elements(step.intoTables)
        ensures u in Touched(steps)
      {
        assert steps[|done|] == step;
      }
    }
  }

  /** A table no step registers on keeps an empty list. */
  lemma {:induction false} ListAfterUntouched<T>(t: T, steps: seq<BlockStep<T>>)
    requires t !in Touched(steps)
    ensures ListAfter([], t, steps) == []
  {
    if steps != [] {
      var init, last := steps[..|steps| - 1], steps[|steps| - 1];
      assert steps == init + [last];
      TouchedSnoc(init, last);
      ListAfterUntouched(t, init);
      ListAfterSnoc([], t, init, last);
      if last.Observe? {
        OccurrencesAbsent(last.intoTables, t);
      } else if last.Unobserve? {
        RemoveAllEmpty(last.other, Occurrences(last.intoTables, t));
      }
    }
  }

  /**
   * While the block runs: the registry lists the tables it listed, the
   * observed ones and those the steps `done` registered on; each list holds
   * `o` once per time its table is among `tables`, and with `o` left out
   * it is what the steps made of the list in `base`.
   */
  ghost predicate Tracks<T>(m: map<T, seq<WriteObserver>>, tables: seq<T>, o: WriteObserver,
                            base: map<T, seq<WriteObserver>>, done: seq<BlockStep<T>>)
  {
    && m.Keys == base.Keys + Elements(tables) + Touched(done)
    && forall t | t in m ::
      Count(m[t], o) == Occurrences(tables, t) && Without(m[t], o) == ListAfter(ListOf(base, t), t, done)
  }

  /** Registering `o` on `tables` starts the tracking. */
  lemma RegisteredTracks<T>(base: map<T, seq<WriteObserver>>, m: map<T, seq<WriteObserver>>, tables: seq<T>, o: WriteObserver)
    requires m.Keys == base.Keys + Elements(tables) && AddedPerTable(base, m, tables, o)
    requires o !in AllIn(base)
    ensures Tracks(m, tables, o, base, [])
  {
    assert Touched<T>([]) == {};
    forall t | t in m
      ensures Count(m[t], o) == Occurrences(tables, t) && Without(m[t], o) == ListAfter(ListOf(base, t), t, [])
    {
      var n := Occurrences(tables, t);
      assert m[t] == ListOf(base, t) + Copies(o, n);
      if t in base {
        assert forall x :: x in base[t] ==> x in AllIn(base);
      }
      WithoutConcat(ListOf(base, t), Copies(o, n), o);
      WithoutAbsent(ListOf(base, t), o);
      CopiesCounted(o, n);
    }
  }

  /** A write or a check leaves the lists alone. */
  lemma QuietStepTracks<T>(m: map<T, seq<WriteObserver>>, tables: seq<T>, o: WriteObserver,
                           base: map<T, seq<WriteObserver>>, done: seq<BlockStep<T>>, step: BlockStep<T>)
    requires step.Write? || step.Check?
    requires Tracks(m, tables, o, base, done)
    ensures Tracks(m, tables, o, base, done + [step])
  {
    TouchedSnoc(done, step);
    forall t | t in m
      ensures ListAfter(ListOf(base, t), t, done + [step]) == ListAfter(ListOf(base, t), t, done)
    {
      ListAfterSnoc(ListOf(base, t), t, done, step);
    }
  }

  /** Registering another observer keeps the tracking. */
  lemma ObserveTracks<T>(before: map<T, seq<WriteObserver>>, after: map<T, seq<WriteObserver>>, tables: seq<T>, o: WriteObserver,
                         base: map<T, seq<WriteObserver>>, done: seq<BlockStep<T>>, intoTables: seq<T>, other: WriteObserver)
    requires other != o
    requires after.Keys == before.Keys + Elements(intoTables) && AddedPerTable(before, after, intoTables, other)
    requires Tracks(before, tables, o, base, done)
    ensures Tracks(after, tables, o, base, done + [Observe(intoTables, other)])
  {
    var step := Observe(intoTables, other);
    TouchedSnoc(done, step);
    forall t | t in after
      ensures Count(after[t], o) == Occurrences(tables, t)
      ensures Without(after[t], o) == ListAfter(ListOf(base, t), t, done + [step])
    {
      ObserveTable(before, after[t], tables, o, base, done, intoTables, other, t);
    }
  }

  /** The tracking of one table, once another observer is registered. */
  lemma ObserveTable<T>(before: map<T, seq<WriteObserver>>, list: seq<WriteObserver>, tables: seq<T>, o: WriteObserver,
                        base: map<T, seq<WriteObserver>>, done: seq<BlockStep<T>>, intoTables: seq<T>, other: WriteObserver, t: T)
    requires other != o
    requires list == ListOf(before, t) + Copies(other, Occurrences(intoTables, t))
    requires Tracks(before, tables, o, base, done)
    ensures Count(list, o) == Occurrences(tables, t)
    ensures Without(list, o) == ListAfter(ListOf(base, t), t, done + [Observe(intoTables, other)])
  {
    if t !in before {
      OccurrencesAbsent(tables, t);
      ListAfterUntouched(t, done);
    }
    ObserveAt(ListOf(before, t), other, o, Occurrences(intoTables, t));
    ListAfterSnoc(ListOf(base, t), t, done, Observe(intoTables, other));
  }

  /** One list, once another observer is appended `n` times. */
  lemma ObserveAt(list: seq<WriteObserver>, x: WriteObserver, o: WriteObserver, n: nat)
    requires x != o
    ensures Count(list + Copies(x, n), o) == Count(list, o)
    ensures Without(list + Copies(x, n), o) == Without(list, o) + Copies(x, n)
  {
    assert o !in Copies(x, n);
    WithoutConcat(list, Copies(x, n), o);
    WithoutAbsent(Copies(x, n), o);
  }

  /** Unregistering another observer keeps the tracking. */
  lemma UnobserveTracks<T>(before: map<T, seq<WriteObserver>>, after: map<T, seq<WriteObserver>>, tables: seq<T>, o: WriteObserver,
                           base: map<T, seq<WriteObserver>>, done: seq<BlockStep<T>>, intoTables: seq<T>, other: WriteObserver)
    requires other != o
    requires after.Keys == before.Keys
    requires forall t :: t in after ==> after[t] == RemoveAll(before[t], other, Occurrences(intoTables, t))
    requires Tracks(before, tables, o, base, done)
    ensures Tracks(after, tables, o, base, done + [Unobserve(intoTables, other)])
  {
    var step := Unobserve(intoTables, other);
    TouchedSnoc(done, step);
    forall t | t in after
      ensures Count(after[t], o) == Occurrences(tables, t)
      ensures Without(after[t], o) == ListAfter(ListOf(base, t), t, done + [step])
    {
      RemoveAllOther(before[t], other, o, Occurrences(intoTables, t));
      ListAfterSnoc(ListOf(base, t), t, done, step);
    }
  }

  /** The `finally`: removing `o` from every one of `tables` leaves the lists the steps made, and `o` nowhere. */
  lemma FinallyTracks<T>(blockEnd: map<T, seq<WriteObserver>>, after: map<T, seq<WriteObserver>>, tables: seq<T>, o: WriteObserver,
                         base: map<T, seq<WriteObserver>>, steps: seq<BlockStep<T>>)
    requires after.Keys == blockEnd.Keys
    requires forall t :: t in after ==> after[t] == RemoveAll(blockEnd[t], o, Occurrences(tables, t))
    requires Tracks(blockEnd, tables, o, base, steps)
    ensures forall t :: t in after ==> after[t] == ListAfter(ListOf(base, t), t, steps)
    ensures o !in AllIn(after)
  {
    forall t | t in after
      ensures after[t] == Without(blockEnd[t], o)
    {
      RemoveAllOwn(blockEnd[t], o, Occurrences(tables, t));
    }
  }

  /** The registry: `tableObservers` and the stamp `lastObserverTrigger`. */
  class ObserverRegistry<T(==)> {
    var lastObserverTrigger: int
    var tableObservers: map<T, seq<WriteObserver>>

    /** Every registered observer. */
    ghost function Observers(): set<WriteObserver>
      reads this
    {
      AllIn(tableObservers)
    }

    /** The observers registered on one of `tables`. */
    ghost function RegisteredOn(tables: seq<T>): set<WriteObserver>
      reads this
    {
      set i, o | 0 <= i < |tables| && o in ListOf(tableObservers, tables[i]) :: o
    }

    /** No registered observer carries a stamp that has not been handed out yet. */
    ghost predicate Valid()
      reads this, Observers()
    {
      && 0 <= lastObserverTrigger
      && forall o :: o in Observers() ==> o.lastTrigger <= lastObserverTrigger
    }

    /** Every registered observer is in `pool`, and no observer of `pool` carries a stamp not handed out yet. */
    ghost predicate Bounded(pool: set<WriteObserver>)
      reads this, pool
    {
      && Observers() <= pool
      && forall x :: x in pool ==> x.lastTrigger <= lastObserverTrigger
    }

    constructor ()
      ensures Valid() && lastObserverTrigger == 0 && tableObservers == map[]
    {
      lastObserverTrigger := 0;
      tableObservers := map[];
    }

    /** `tableObservers.getOrPut(table, ::ArrayList).add(observer)` for each table. */
    method Register(tables: seq<T>, o: WriteObserver)
      requires Valid() && o.lastTrigger <= lastObserverTrigger
      modifies this
      ensures Valid() && lastObserverTrigger == old(lastObserverTrigger)
      ensures Observers() <= old(Observers()) + {o}
      ensures tableObservers.Keys == old(tableObservers.Keys) + Elements(tables)
      ensures AddedPerTable(old(tableObservers), tableObservers, tables, o)
    {
      ghost var orig := tableObservers;
      for i := 0 to |tables|
        invariant Valid() && lastObserverTrigger == old(lastObserverTrigger)
        invariant Observers() <= old(Observers()) + {o}
        invariant tableObservers.Keys == orig.Keys + Elements(tables[..i])
        invariant AddedPerTable(orig, tableObservers, tables[..i], o)
      {
        var t := tables[i];
        ghost var prev := tableObservers;
        AddTo(t, o);
        AppendStep(orig, prev, tableObservers, tables, i, o);
        AppendKeys(orig, prev, tableObservers, tables, i, o);
      }
      assert tables[..|tables|] == tables;
    }

    /** `tableObservers.getOrPut(table, ::ArrayList).add(observer)` for one table. */
    method AddTo(t: T, o: WriteObserver)
      requires Valid() && o.lastTrigger <= lastObserverTrigger
      modifies this
      ensures Valid() && lastObserverTrigger == old(lastObserverTrigger)
      ensures Observers() == old(Observers()) + {o}
      ensures tableObservers == old(tableObservers)[t := ListOf(old(tableObservers), t) + [o]]
    {
      AllInAppend(tableObservers, t, o);
      tableObservers := tableObservers[t := ListOf(tableObservers, t) + [o]];
    }

    /** `tableObservers[table]?.remove(observer)` for each table. */
    method Unregister(tables: seq<T>, o: WriteObserver)
      modifies this
      ensures old(Valid()) ==> Valid()
      ensures lastObserverTrigger == old(lastObserverTrigger) && Observers() <= old(Observers())
      ensures tableObservers.Keys == old(tableObservers.Keys)
      ensures forall t :: t in tableObservers ==> tableObservers[t] == RemoveAll(old(tableObservers[t]), o, Occurrences(tables, t))
    {
      ghost var orig := tableObservers;
      for i := 0 to |tables|
        invariant lastObserverTrigger == old(lastObserverTrigger)
        invariant Observers() <= old(Observers())
        invariant RemovedPerTable(orig, tableObservers, tables[..i], o)
      {
        var t := tables[i];
        RemoveStep(orig, tableObservers, tables, i, o);
        if t in tableObservers {
          AllInRemove(tableObservers, t, o);
        }
        tableObservers := RemoveFrom(tableObservers, t, o);
      }
      assert tables[..|tables|] == tables;
    }

    /**
     * `observeDatabaseWrites` with a block: a new observer is registered on
     * every table of `tables`, the block runs (`steps`), and `finally`
     * unregisters it. Each `checkWrite` of the block reports whether an
     * observed table was written since the previous one. Afterwards the
     * observer is in no list, and every list is what the block's own
     * registrations made of it; a table first observed here keeps a list.
     */
    method ObserveDatabaseWrites(tables: seq<T>, steps: seq<BlockStep<T>>) returns (o: WriteObserver, answers: seq<bool>)
      requires Valid()
      requires forall x :: x in StepObservers(steps) ==> x.lastTrigger <= lastObserverTrigger
      modifies this, Observers(), StepObservers(steps)
      ensures Valid() && fresh(o) && o !in Observers()
      ensures lastObserverTrigger == old(lastObserverTrigger) + Writes(steps)
      ensures |answers| == |steps|
      ensures forall i :: 0 <= i < |steps| ==> answers[i] == (steps[i].Check? && Pending(tables, steps[..i]))
      ensures tableObservers.Keys == old(tableObservers.Keys) + Elements(tables) + Touched(steps)
      ensures forall t :: t in tableObservers ==> tableObservers[t] == ListAfter(ListOf(old(tableObservers), t), t, steps)
    {
      o := new WriteObserver();
      ghost var base := tableObservers;
      assert o !in AllIn(base);
      Register(tables, o);
      RegisteredTracks(base, tableObservers, tables, o);
      answers := RunBlock(tables, o, base, steps, StepObservers(steps));
      AnswersAt(tables, steps);
      ghost var blockEnd := tableObservers;
      Unregister(tables, o);
      FinallyTracks(blockEnd, tableObservers, tables, o, base, steps);
    }

    /**
     * The block's steps, one after the other, with `o` registered on `tables`
     * throughout; `others` holds the other observers the steps register.
     */
    method RunBlock(tables: seq<T>, o: WriteObserver, ghost base: map<T, seq<WriteObserver>>, steps: seq<BlockStep<T>>,
                    ghost others: set<WriteObserver>)
      returns (answers: seq<bool>)
      requires Valid() && Tracks(tableObservers, tables, o, base, []) && !o.signalled
      requires forall i :: 0 <= i < |steps| && !steps[i].Write? && !steps[i].Check? ==> steps[i].other in others
      requires o !in others && o.lastTrigger <= lastObserverTrigger
      requires forall x :: x in others ==> x.lastTrigger <= lastObserverTrigger
      modifies this, Observers(), others, o
      ensures Valid() && Tracks(tableObservers, tables, o, base, steps)
      ensures answers == Answers(tables, steps)
      ensures lastObserverTrigger == old(lastObserverTrigger) + Writes(steps)
    {
      ghost var pool := Observers() + others + {o};
      answers := [];
      for i := 0 to |steps|
        invariant Valid() && Tracks(tableObservers, tables, o, base, steps[..i])
        invariant o.signalled == Pending(tables, steps[..i])
        invariant answers == Answers(tables, steps[..i])
        invariant lastObserverTrigger == old(lastObserverTrigger) + Writes(steps[..i])
        invariant Bounded(pool)
      {
        var step := steps[i];
        ghost var done := steps[..i];
        assert steps[..i + 1] == done + [step];
        assert !step.Write? && !step.Check? ==> step.other in others;
        var answer := RunStep(tables, o, base, done, step, pool);
        answers := answers + [answer];
      }
      assert steps[..|steps|] == steps;
    }

    /** One step of the block, with `o` registered on `tables` throughout. */
    method RunStep(tables: seq<T>, o: WriteObserver, ghost base: map<T, seq<WriteObserver>>,
                   ghost done: seq<BlockStep<T>>, step: BlockStep<T>, ghost pool: set<WriteObserver>) returns (answer: bool)
      requires Valid() && Tracks(tableObservers, tables, o, base, done) && o.signalled == Pending(tables, done)
      requires Bounded(pool) && o in pool
      requires !step.Write? && !step.Check? ==> step.other != o && step.other in pool
      modifies this, pool
      ensures Valid() && Tracks(tableObservers, tables, o, base, done + [step])
      ensures o.signalled == Pending(tables, done + [step])
      ensures answer == (step.Check? && Pending(tables, done))
      ensures lastObserverTrigger == old(lastObserverTrigger) + (if step.Write? then 1 else 0)
      ensures Bounded(pool)
    {
      assert (done + [step])[..|done|] == done;
      answer := false;
      match step
      case Write(usedTables) =>
        OwnSignal(tables, o, base, done, usedTables);
        QuietStepTracks(tableObservers, tables, o, base, done, step);
        ghost var registered := Observers();
        ghost var fired := NotifyWrite(usedTables);
        forall x | x in pool
          ensures x.lastTrigger <= lastObserverTrigger
        {
          if x !in registered {
            assert x.lastTrigger == old(x.lastTrigger);
          }
        }
      case Check =>
        QuietStepTracks(tableObservers, tables, o, base, done, step);
        answer := o.CheckWrite();
        assert forall x :: x in pool ==> x.lastTrigger == old(x.lastTrigger);
      case Observe(intoTables, other) =>
        ghost var before := tableObservers;
        Register(intoTables, other);
        ObserveTracks(before, tableObservers, tables, o, base, done, intoTables, other);
        assert forall x :: x in pool ==> x.lastTrigger == old(x.lastTrigger);
      case Unobserve(intoTables, other) =>
        ghost var before := tableObservers;
        Unregister(intoTables, other);
        UnobserveTracks(before, tableObservers, tables, o, base, done, intoTables, other);
        assert forall x :: x in pool ==> x.lastTrigger == old(x.lastTrigger);
    }

    /** While tracked, `o` is registered on a used table exactly when one of `tables` is used. */
    lemma OwnSignal(tables: seq<T>, o: WriteObserver, base: map<T, seq<WriteObserver>>, done: seq<BlockStep<T>>, usedTables: seq<T>)
      requires Tracks(tableObservers, tables, o, base, done)
      ensures o in RegisteredOn(usedTables) <==> Shares(usedTables, tables)
      ensures o !in Observers() ==> !Shares(usedTables, tables)
    {
      if Shares(usedTables, tables) {
        var i :| 0 <= i < |usedTables| && usedTables[i] in tables;
        OccurrencesPresent(tables, usedTables[i]);
        assert usedTables[i] in tableObservers;
        assert o in ListOf(tableObservers, usedTables[i]);
      }
      if o in RegisteredOn(usedTables) {
        var i :| 0 <= i < |usedTables| && o in ListOf(tableObservers, usedTables[i]);
        assert usedTables[i] in tableObservers;
        assert Count(tableObservers[usedTables[i]], o) > 0;
        if usedTables[i] !in tables {
          OccurrencesAbsent(tables, usedTables[i]);
        }
      }
    }

    /**
     * The trigger of `writeTransaction`: a new stamp, then every observer on
     * each used table not yet stamped with it is stamped and triggered.
     * `fired` lists the triggered observers in order: each observer on a
     * used table once, and no other.
     */
    method NotifyWrite(usedTables: seq<T>) returns (ghost fired: seq<WriteObserver>)
      requires Valid()
      modifies this, Observers()
      ensures Valid()
      ensures lastObserverTrigger == old(lastObserverTrigger) + 1 && tableObservers == old(tableObservers)
      ensures forall o :: o in fired <==> o in old(RegisteredOn(usedTables))
      ensures forall i, j :: 0 <= i < j < |fired| ==> fired[i] != fired[j]
      ensures forall o :: o in old(Observers()) ==>
        o.signalled == (old(o.signalled) || o in old(RegisteredOn(usedTables)))
    {
      lastObserverTrigger := lastObserverTrigger + 1;
      var stamp := lastObserverTrigger;
      ghost var all := Observers();
      ghost var done: set<WriteObserver> := {};
      fired := [];
      for i := 0 to |usedTables|
        invariant lastObserverTrigger == stamp && tableObservers == old(tableObservers) && all == Observers()
        invariant done == RegisteredOn(usedTables[..i])
        invariant forall o :: o in all ==> o.lastTrigger <= stamp && (o.lastTrigger == stamp <==> o in done)
        invariant forall o :: o in all ==> o.signalled == (old(o.signalled) || o in done)
        invariant forall o :: o in fired <==> o in done
        invariant forall a, b :: 0 <= a < b < |fired| ==> fired[a] != fired[b]
      {
        var table := usedTables[i];
        assert RegisteredOn(usedTables[..i + 1]) == done + set o | o in ListOf(tableObservers, table) by {
          assert usedTables[..i + 1][..i] == usedTables[..i];
        }
        if table in tableObservers {
          var list := tableObservers[table];
          fired, done := FireList(list, stamp, all, fired, done);
        }
      }
      assert usedTables[..|usedTables|] == usedTables;
    }
  }

  /** The inner loop of the trigger: one table's list. */
  method FireList(list: seq<WriteObserver>, stamp: int, ghost all: set<WriteObserver>,
                  ghost fired0: seq<WriteObserver>, ghost done0: set<WriteObserver>)
    returns (ghost fired: seq<WriteObserver>, ghost done: set<WriteObserver>)
    requires forall o :: o in list ==> o in all
    requires forall o :: o in all ==> o.lastTrigger <= stamp && (o.lastTrigger == stamp <==> o in done0)
    requires forall o :: o in fired0 <==> o in done0
    requires forall a, b :: 0 <= a < b < |fired0| ==> fired0[a] != fired0[b]
    modifies all
    ensures done == done0 + set o | o in list
    ensures forall o :: o in all ==> o.lastTrigger <= stamp && (o.lastTrigger == stamp <==> o in done)
    ensures forall o :: o in all ==> o.signalled == (old(o.signalled) || (o in done && o !in done0))
    ensures forall o :: o in fired <==> o in done
    ensures forall a, b :: 0 <= a < b < |fired| ==> fired[a] != fired[b]
  {
    fired, done := fired0, done0;
    for j := 0 to |list|
      invariant done == done0 + set o | o in list[..j]
      invariant forall o :: o in all ==> o.lastTrigger <= stamp && (o.lastTrigger == stamp <==> o in done)
      invariant forall o :: o in all ==> o.signalled == (old(o.signalled) || (o in done && o !in done0))
      invariant forall o :: o in fired <==> o in done
      invariant forall a, b :: 0 <= a < b < |fired| ==> fired[a] != fired[b]
    {
      var observer := list[j];
      assert list[..j + 1] == list[..j] + [observer];
      if observer.lastTrigger != stamp {
        observer.lastTrigger := stamp;
        observer.Trigger();
        fired := fired + [observer];
      }
      done := done + {observer};
    }
    assert list[..|list|] == list;
  }
}
