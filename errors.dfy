/**
 * Running several actions that may each throw, and rethrowing the first
 * error at the end with the later ones attached as suppressed
 * (`Throwable.addSuppressed`).
 */
module Throwables {
  import opened Wrappers

  /** The first error thrown, with the later ones added as suppressed. */
  datatype Thrown<E> = Thrown(first: E, suppressed: seq<E>)

  /** The failures of `action` over `items`, in order. */
  function Failures<T, E>(items: seq<T>, action: T -> Outcome<E>): (r: seq<E>)
    ensures |r| <= |items|
  {
    if items == [] then []
    else
      var front := Failures(items[..|items| - 1], action);
      var outcome := action(items[|items| - 1]);
      if outcome.Fail? then front + [outcome.error] else front
  }

  /** What is rethrown at the end: nothing, or the first failure with the rest suppressed. */
  function Grouped<E>(failures: seq<E>): (r: Option<Thrown<E>>)
    ensures r.None? <==> failures == []
  {
    if failures == [] then None else Some(Thrown(failures[0], failures[1..]))
  }

  /** Failures are collected one item at a time. */
  lemma FailuresStep<T, E>(items: seq<T>, x: T, action: T -> Outcome<E>)
    ensures Failures(items + [x], action) ==
      Failures(items, action) + (if action(x).Fail? then [action(x).error] else [])
  {
    assert (items + [x])[..|items|] == items;
  }

  /** Adds one outcome to the error collected so far. */
  function AddOutcome<E>(error: Option<Thrown<E>>, outcome: Outcome<E>): Option<Thrown<E>>
  {
    match outcome
    case Pass => error
    case Fail(e) =>
      match error
      case None => Some(Thrown(e, []))
      case Some(t) => Some(Thrown(t.first, t.suppressed + [e]))
  }

  /**
   * The `if (err == null) err = e else err.addSuppressed(e)` step: adding
   * one more outcome to the group so far gives the group of the longer list.
   */
  lemma GroupedStep<T, E>(items: seq<T>, x: T, action: T -> Outcome<E>)
    ensures Grouped(Failures(items + [x], action)) == AddOutcome(Grouped(Failures(items, action)), action(x))
  {
    FailuresStep(items, x, action);
    var before := Failures(items, action);
    match action(x)
    case Pass =>
    case Fail(e) =>
      var after := before + [e];
      assert Failures(items + [x], action) == after;
      if before == [] {
        assert after[0] == e && after[1..] == [];
      } else {
        assert after[0] == before[0] && after[1..] == before[1..] + [e];
      }
  }
}
