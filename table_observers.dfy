/**
 * `TableObservers`: the registry of write observers. Each entry is a table
 * set and an observer, kept in two parallel arrays whose first `count`
 * slots are filled and the rest null. Notifying takes a snapshot of the
 * observers whose set intersects the written tables into a scratch array,
 * which is then cleared and kept for the next snapshot.
 */
module Observers {
  import opened Wrappers
  import TableSets
  import opened Throwables

  datatype Entry = Entry(tables: TableSets.TableSet, observer: object)

  /** The observers of `entries`, in order, whose set shares a table with `tables`. */
  ghost function Interested(entries: seq<Entry>, tables: TableSets.TableSet): (r: seq<object>)
    ensures |r| <= |entries|
    ensures forall o :: o in r ==> exists i :: 0 <= i < |entries| && entries[i].observer == o
  {
    if entries == [] then []
    else
      var last := entries[|entries| - 1];
      var front := Interested(entries[..|entries| - 1], tables);
      if TableSets.Shares(last.tables.words, tables.words) then front + [last.observer] else front
  }

  /** `entries` without slot k: the last entry moves into slot k. */
  function SwapRemove(entries: seq<Entry>, k: nat): (r: seq<Entry>)
    requires k < |entries|
    ensures |r| == |entries| - 1
  {
    entries[k := entries[|entries| - 1]][..|entries| - 1]
  }

  /** Swapping in the last entry removes exactly one copy of entry k. */
  lemma SwapRemoveMultiset(entries: seq<Entry>, k: nat)
    requires k < |entries|
    ensures multiset(SwapRemove(entries, k)) + multiset{entries[k]} == multiset(entries)
  {
    var n := |entries| - 1;
    var last := entries[n];
    if k == n {
      assert SwapRemove(entries, k) == entries[..n];
      assert entries == entries[..n] + [last];
    } else {
      var front, back := entries[..k], entries[k + 1..n];
      assert entries == front + ([entries[k]] + back + [last]);
      assert SwapRemove(entries, k) == front + ([last] + back);
    }
  }

  /** The first slot holding `o`, or -1: the identity search of `removeObserver`. */
  function IndexOf(entries: seq<Entry>, o: object): (r: int)
    ensures -1 <= r < |entries|
    ensures r >= 0 ==> entries[r].observer == o && forall j :: 0 <= j < r ==> entries[j].observer != o
    ensures r == -1 ==> forall j :: 0 <= j < |entries| ==> entries[j].observer != o
  {
    if entries == [] then -1
    else if entries[0].observer == o then 0
    else
      var rest := IndexOf(entries[1..], o);
      assert forall j :: 0 < j < |entries| ==> entries[j] == entries[1..][j - 1];
      if rest == -1 then -1 else rest + 1
  }

  /** `copyOf(n)`: the elements, then `pad` up to length n. */
  method CopyOf<T>(a: array<T>, n: nat, pad: T) returns (b: array<T>)
    requires a.Length <= n
    ensures fresh(b) && b.Length == n
    ensures b[..a.Length] == a[..]
    ensures forall i :: a.Length <= i < n ==> b[i] == pad
  {
    b := new T[n](_ => pad);
    for i := 0 to a.Length
      invariant b[..i] == a[..i]
      invariant forall j :: a.Length <= j < n ==> b[j] == pad
    {
      b[i] := a[i];
    }
  }

  /** The first `count` slots hold a pair and the rest are empty. */
  ghost predicate Slots(sets: seq<Option<TableSets.TableSet>>, observers: seq<object?>, count: nat)
  {
    && |sets| == |observers|
    && count <= |sets|
    && (forall i :: 0 <= i < count ==> sets[i].Some? && observers[i] != null)
    && (forall i :: count <= i < |sets| ==> sets[i].None? && observers[i] == null)
  }

  /** The pairs held by the first `count` slots, in slot order. */
  ghost function EntriesOf(sets: seq<Option<TableSets.TableSet>>, observers: seq<object?>, count: nat): (r: seq<Entry>)
    requires Slots(sets, observers, count)
    ensures |r| == count
    ensures forall i :: 0 <= i < count ==> r[i] == Entry(sets[i].value, observers[i])
  {
    seq(count, i requires 0 <= i < count && Slots(sets, observers, count) => Entry(sets[i].value, observers[i]))
  }

  /** Filling the first empty slot appends the pair. */
  lemma SlotsAppend(sets: seq<Option<TableSets.TableSet>>, observers: seq<object?>, count: nat,
                    tables: TableSets.TableSet, observer: object)
    requires Slots(sets, observers, count) && count < |sets|
    ensures Slots(sets[count := Some(tables)], observers[count := observer], count + 1)
    ensures EntriesOf(sets[count := Some(tables)], observers[count := observer], count + 1) ==
            EntriesOf(sets, observers, count) + [Entry(tables, observer)]
  {
  }

  /** Copying into longer arrays padded with empty slots keeps the pairs. */
  lemma SlotsGrow(sets: seq<Option<TableSets.TableSet>>, observers: seq<object?>, count: nat,
                  sets2: seq<Option<TableSets.TableSet>>, observers2: seq<object?>)
    requires Slots(sets, observers, count)
    requires |sets2| == |observers2| >= |sets|
    requires sets2[..|sets|] == sets && observers2[..|observers|] == observers
    requires forall i :: |sets| <= i < |sets2| ==> sets2[i].None? && observers2[i] == null
    ensures Slots(sets2, observers2, count)
    ensures EntriesOf(sets2, observers2, count) == EntriesOf(sets, observers, count)
  {
    assert forall i :: 0 <= i < |sets| ==> sets2[i] == sets[i] && observers2[i] == observers[i] by {
      forall i | 0 <= i < |sets|
        ensures sets2[i] == sets[i] && observers2[i] == observers[i]
      {
        assert sets2[..|sets|][i] == sets2[i];
        assert observers2[..|observers|][i] == observers2[i];
      }
    }
  }

  /** Moving the last pair into slot k and emptying the last slot is SwapRemove. */
  lemma SlotsRemove(sets: seq<Option<TableSets.TableSet>>, observers: seq<object?>, count: nat, k: nat)
    requires Slots(sets, observers, count) && k < count
    ensures Slots(sets[k := sets[count - 1]][count - 1 := None], observers[k := observers[count - 1]][count - 1 := null], count - 1)
    ensures EntriesOf(sets[k := sets[count - 1]][count - 1 := None], observers[k := observers[count - 1]][count - 1 := null], count - 1) ==
            SwapRemove(EntriesOf(sets, observers, count), k)
  {
    var sets2 := sets[k := sets[count - 1]][count - 1 := None];
    var observers2 := observers[k := observers[count - 1]][count - 1 := null];
    var before := EntriesOf(sets, observers, count);
    assert Slots(sets2, observers2, count - 1);
    var after := EntriesOf(sets2, observers2, count - 1);
    forall i | 0 <= i < count - 1
      ensures after[i] == SwapRemove(before, k)[i]
    {
      if i == k {
        assert after[i] == Entry(sets[count - 1].value, observers[count - 1]);
      }
    }
  }

  class TableObservers {
    var count: nat
    var sets: array<Option<TableSets.TableSet>>
    var observers: array<object?>
    /** The cached scratch array; null when there is none. */
    var tmpObservers: array?<object?>

    ghost predicate Valid()
      reads this, sets, observers, tmpObservers
    {
      && sets.Length == observers.Length
      && 0 < sets.Length
      && Slots(sets[..], observers[..], count)
      && (tmpObservers != null ==> tmpObservers != observers && forall i :: 0 <= i < tmpObservers.Length ==> tmpObservers[i] == null)
    }

    /** The registered (set, observer) pairs, in slot order. */
    ghost function Entries(): (r: seq<Entry>)
      requires Valid()
      reads this, sets, observers, tmpObservers
      ensures |r| == count
      ensures forall i :: 0 <= i < count ==> r[i] == Entry(sets[i].value, observers[i])
    {
      EntriesOf(sets[..], observers[..], count)
    }

    constructor ()
      ensures Valid() && Entries() == [] && tmpObservers == null
      ensures sets.Length == 8 && fresh(sets) && fresh(observers)
    {
      count := 0;
      sets := new Option<TableSets.TableSet>[8](_ => None);
      observers := new object?[8](_ => null);
      tmpObservers := null;
    }

    /**
     * `addObserver`: the pair goes into slot `count`; both arrays double
     * first when they are full.
     */
    method AddObserver(tables: TableSets.TableSet, observer: object)
      requires Valid()
      modifies this, sets, observers
      ensures Valid()
      ensures Entries() == old(Entries()) + [Entry(tables, observer)]
      ensures old(count) == old(sets.Length) ==> sets.Length == 2 * old(sets.Length) && fresh(sets) && fresh(observers)
      ensures old(count) < old(sets.Length) ==> sets == old(sets) && observers == old(observers)
      ensures tmpObservers == old(tmpObservers)
    {
      var index := count;
      count := count + 1;
      if index == sets.Length {
        ghost var sets0, observers0 := sets[..], observers[..];
        sets := CopyOf(sets, index * 2, None);
        observers := CopyOf(observers, index * 2, null);
        SlotsGrow(sets0, observers0, index, sets[..], observers[..]);
      }
      ghost var sets1, observers1 := sets[..], observers[..];
      sets[index] := Some(tables);
      observers[index] := observer;
      assert sets[..] == sets1[index := Some(tables)] && observers[..] == observers1[index := observer];
      SlotsAppend(sets1, observers1, index, tables, observer);
    }

    /**
     * `removeObserver`: the first slot holding this very object is found;
     * the last entry moves into it and the last slot is cleared. An
     * observer that is not registered changes nothing.
     */
    method RemoveObserver(observer: object)
      requires Valid()
      modifies this, sets, observers
      ensures Valid()
      ensures sets == old(sets) && observers == old(observers) && tmpObservers == old(tmpObservers)
      ensures IndexOf(old(Entries()), observer) == -1 ==> Entries() == old(Entries())
      ensures IndexOf(old(Entries()), observer) >= 0 ==>
        Entries() == SwapRemove(old(Entries()), IndexOf(old(Entries()), observer))
    {
      var index := FindObserver(observer);
      if index == count {
        return;
      }
      RemoveAt(index);
    }

    /** The search of `removeObserver`: the first slot holding this very object, or `count`. */
    method FindObserver(observer: object) returns (index: nat)
      requires Valid()
      ensures index <= count
      ensures index == count <==> IndexOf(Entries(), observer) == -1
      ensures index < count ==> index == IndexOf(Entries(), observer)
    {
      index := 0;
      while index < count && observers[index] != observer
        invariant 0 <= index <= count
        invariant forall j :: 0 <= j < index ==> observers[j] != observer
      {
        index := index + 1;
      }
      assert index < count ==> Entries()[index].observer == observer;
    }

    /** The removal of `removeObserver` once slot `index` is found: the last entry moves into it. */
    method RemoveAt(index: nat)
      requires Valid() && index < count
      modifies this, sets, observers
      ensures Valid()
      ensures sets == old(sets) && observers == old(observers) && tmpObservers == old(tmpObservers)
      ensures Entries() == SwapRemove(old(Entries()), index)
    {
      ghost var sets0, observers0 := sets[..], observers[..];
      var lastIndex := count - 1;
      if index != lastIndex {
        sets[index] := sets[lastIndex];
        observers[index] := observers[lastIndex];
      } else {
        assert sets0[index := sets0[lastIndex]] == sets0;
        assert observers0[index := observers0[lastIndex]] == observers0;
      }
      sets[lastIndex] := None;
      observers[lastIndex] := null;
      count := lastIndex;
      SlotsRemove(sets0, observers0, lastIndex + 1, index);
      assert sets[..] == sets0[index := sets0[lastIndex]][lastIndex := None];
      assert observers[..] == observers0[index := observers0[lastIndex]][lastIndex := null];
    }

    /**
     * `internalObtainObservers`: the cached scratch array is taken (or a
     * fresh one of `count` slots when there is none or it is too small) and
     * filled, in slot order, with the observers whose set intersects
     * `tables`; the slots after them stay null.
     */
    method ObtainObservers(tables: TableSets.TableSet) returns (result: array<object?>)
      requires Valid()
      modifies this, tmpObservers
      ensures Valid() && tmpObservers == null
      ensures count == old(count) && sets == old(sets) && observers == old(observers)
      ensures Entries() == old(Entries())
      ensures fresh(result) || result == old(tmpObservers)
      ensures result != observers && count <= result.Length
      ensures Snapshot(result, Interested(Entries(), tables))
    {
      ghost var entries := Entries();
      var cached := tmpObservers;
      tmpObservers := null;
      if cached == null || cached.Length < count {
        result := new object?[count](_ => null);
      } else {
        result := cached;
      }
      Collect(result, sets, observers, count, entries, tables);
    }

    /**
     * `internalReturnObservers`: the cleared array becomes the cached one
     * when there is none or the cached one is smaller.
     */
    method ReturnObservers(returned: array<object?>)
      requires Valid() && returned != observers
      requires forall i :: 0 <= i < returned.Length ==> returned[i] == null
      modifies this
      ensures Valid()
      ensures count == old(count) && sets == old(sets) && observers == old(observers)
      ensures old(tmpObservers) == null || old(tmpObservers).Length < returned.Length ==> tmpObservers == returned
      ensures old(tmpObservers) != null && old(tmpObservers).Length >= returned.Length ==> tmpObservers == old(tmpObservers)
    {
      var current := tmpObservers;
      if current == null || current.Length < returned.Length {
        tmpObservers := returned;
      }
    }

    /**
     * `forEachObserver`: the handler is called on each observer of the
     * snapshot, in slot order; a throwing handler does not stop the
     * others, and the first error is rethrown at the end with the later
     * ones suppressed. The cleared snapshot is handed back for reuse.
     * Returns the observers called and the outcome.
     */
    method ForEachObserver<E>(tables: TableSets.TableSet, handle: object -> Outcome<E>)
      returns (calls: seq<object>, r: Outcome<Thrown<E>>)
      requires Valid()
      modifies this, tmpObservers
      ensures Valid() && tmpObservers != null
      ensures count == old(count) && sets == old(sets) && observers == old(observers)
      ensures Entries() == old(Entries())
      ensures calls == Interested(old(Entries()), tables)
      ensures r == if Failures(calls, handle) == [] then Pass else Fail(Grouped(Failures(calls, handle)).value)
    {
      var snapshot := ObtainObservers(tables);
      var error;
      calls, error := Notify(snapshot, Interested(Entries(), tables), handle);
      ReturnObservers(snapshot);
      r := if error.None? then Pass else Fail(error.value);
    }
  }

  /** The array lists `chosen` and is null after it. */
  ghost predicate Snapshot(a: array<object?>, chosen: seq<object>)
    reads a
  {
    && |chosen| <= a.Length
    && (forall j :: 0 <= j < |chosen| ==> a[j] == chosen[j])
    && (forall j :: |chosen| <= j < a.Length ==> a[j] == null)
  }

  lemma InterestedStep(entries: seq<Entry>, i: nat, tables: TableSets.TableSet)
    requires i < |entries|
    ensures Interested(entries[..i + 1], tables) ==
      Interested(entries[..i], tables) +
      (if TableSets.Shares(entries[i].tables.words, tables.words) then [entries[i].observer] else [])
  {
    assert entries[..i + 1][..i] == entries[..i];
  }

  /** The filling loop of `internalObtainObservers`, over a cleared array. */
  method Collect(result: array<object?>, sets: array<Option<TableSets.TableSet>>, observers: array<object?>,
                 count: nat, ghost entries: seq<Entry>, tables: TableSets.TableSet)
    requires count <= sets.Length && count <= observers.Length && count <= result.Length
    requires result != observers
    requires |entries| == count
    requires forall i :: 0 <= i < count ==> sets[i].Some? && observers[i] != null && entries[i] == Entry(sets[i].value, observers[i])
    requires forall j :: 0 <= j < result.Length ==> result[j] == null
    modifies result
    ensures Snapshot(result, Interested(entries, tables))
  {
    var out := 0;
    for i := 0 to count
      invariant out <= i
      invariant Snapshot(result, Interested(entries[..i], tables))
      invariant out == |Interested(entries[..i], tables)|
    {
      InterestedStep(entries, i, tables);
      var hit := TableSets.Intersects(sets[i].value.words, tables.words);
      if hit {
        result[out] := observers[i];
        out := out + 1;
      }
    }
    assert entries[..count] == entries;
  }

  /** The calling loop of `forEachObserver`: each slot is cleared before its handler runs. */
  method Notify<E>(snapshot: array<object?>, ghost chosen: seq<object>, handle: object -> Outcome<E>)
    returns (calls: seq<object>, error: Option<Thrown<E>>)
    requires Snapshot(snapshot, chosen)
    modifies snapshot
    ensures calls == chosen
    ensures error == Grouped(Failures(calls, handle))
    ensures forall j :: 0 <= j < snapshot.Length ==> snapshot[j] == null
  {
    error := None;
    calls := [];
    var i := 0;
    while i < snapshot.Length
      invariant i <= |chosen|
      invariant calls == chosen[..i]
      invariant forall j :: 0 <= j < i ==> snapshot[j] == null
      invariant forall j :: i <= j < |chosen| ==> snapshot[j] == chosen[j]
      invariant forall j :: |chosen| <= j < snapshot.Length ==> snapshot[j] == null
      invariant error == Grouped(Failures(calls, handle))
      decreases snapshot.Length - i
    {
      var observer := snapshot[i];
      if observer == null {
        break;
      }
      var o: object := observer;
      snapshot[i] := null;
      i := i + 1;
      assert chosen[..i] == calls + [o];
      GroupedStep(calls, o, handle);
      calls := calls + [o];
      var outcome := handle(o);
      error := AddOutcome(error, outcome);
    }
    assert calls == chosen;
  }
}
