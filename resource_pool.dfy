/**
 * `LazyResourcePool`: the connections of an Android database. One stable
 * resource exists from the start; up to `lazyBudget` more are created on
 * demand. Idle resources wait in a list, and a semaphore counts them, so a
 * permit is a claim on one idle resource. Closing the pool closes the idle
 * resources and every resource handed back afterwards.
 *
 * The model is sequential: the semaphore is a counter, and an `acquire`
 * that would suspend is the outcome `MustWait`.
 */
module ResourcePools {
  import opened Wrappers
  import opened Throwables
  import opened Lists

  /** After this many creation failures in a row, no more creation is tried. */
  const MAX_CREATION_FAILURES := 10

  datatype Obtained<Res> = Obtained(resource: Res) | PoolClosed | MustWait

  datatype UseError<E> = Closed | Waiting | Failed(error: E)

  class LazyResourcePool<Res> {
    /** The budget given at construction, and the semaphore's permit limit. */
    const initialBudget: nat
    const maxPermits: nat
    var closed: bool
    /** The idle resources; `removeLast` takes from the end. */
    var pool: seq<Res>
    /** The semaphore's available permits. */
    var available: int
    var lazyBudget: int
    var lazyCreationFailures: nat
    /** `res.close()` calls, in order. */
    var closedResources: seq<Res>
    /** Resources handed out and not handed back. */
    ghost var lent: nat

    /** How many resources exist: the stable one and the lazily created ones. */
    ghost function Existing(): int
      reads this
    {
      1 + initialBudget - lazyBudget
    }

    ghost predicate Valid()
      reads this
    {
      && maxPermits == 1 + initialBudget + 1
      && 0 <= lazyBudget <= initialBudget
      && (!closed ==> available == |pool|)
      && (closed ==> pool == [])
      && 0 <= available
      && lent <= Existing()
      && available + lent == Existing() + (if closed then 1 else 0)
    }

    /**
     * What the pool guarantees in every state: at most `1 + lazyBudget`
     * resources exist, and the semaphore never holds more permits than
     * its limit.
     */
    lemma Bounds()
      requires Valid()
      ensures Existing() <= 1 + initialBudget
      ensures available <= maxPermits
      ensures !closed ==> |pool| + lent == Existing()
      ensures closed ==> available >= 1
    {
    }

    constructor (stable: Res, lazyBudget: nat)
      ensures Valid()
      ensures pool == [stable] && available == 1 && !closed
      ensures this.lazyBudget == lazyBudget && initialBudget == lazyBudget && lazyCreationFailures == 0
      ensures lent == 0 && closedResources == []
    {
      initialBudget := lazyBudget;
      maxPermits := 1 + lazyBudget + 1;
      closed := false;
      pool := [stable];
      available := 1;
      this.lazyBudget := lazyBudget;
      lazyCreationFailures := 0;
      closedResources := [];
      lent := 0;
    }

    /** `createNewResourceIfBudgetAllows` gets as far as calling the factory. */
    predicate CreationAllowed()
      reads this
    {
      lazyCreationFailures <= MAX_CREATION_FAILURES && lazyBudget > 0
    }

    /**
     * `createNewResourceIfBudgetAllows`: `creation` is what the factory
     * yields (`None` when it throws). A creation consumes a unit of budget
     * and clears the failure count; a failed one gives the unit back and
     * counts the failure. The created resource is handed out.
     */
    method CreateNewResourceIfBudgetAllows(creation: Option<Res>) returns (r: Option<Res>)
      requires Valid()
      modifies this
      ensures Valid()
      ensures closed == old(closed) && pool == old(pool) && available == old(available)
      ensures closedResources == old(closedResources)
      ensures old(lazyCreationFailures) > MAX_CREATION_FAILURES || old(lazyBudget) <= 0 ==>
        r == None && lazyBudget == old(lazyBudget) && lazyCreationFailures == old(lazyCreationFailures) && lent == old(lent)
      ensures old(lazyCreationFailures) <= MAX_CREATION_FAILURES && old(lazyBudget) > 0 && creation.Some? ==>
        r == creation && lazyBudget == old(lazyBudget) - 1 && lazyCreationFailures == 0 && lent == old(lent) + 1
      ensures old(lazyCreationFailures) <= MAX_CREATION_FAILURES && old(lazyBudget) > 0 && creation.None? ==>
        r == None && lazyBudget == old(lazyBudget) && lazyCreationFailures == old(lazyCreationFailures) + 1 && lent == old(lent)
    {
      if lazyCreationFailures > MAX_CREATION_FAILURES {
        return None;
      }
      var budget := lazyBudget;
      if budget <= 0 {
        return None;
      }
      lazyBudget := budget - 1;
      match creation
      case Some(resource) =>
        lazyCreationFailures := 0;
        lent := lent + 1;
        return Some(resource);
      case None =>
        lazyBudget := lazyBudget + 1;
        lazyCreationFailures := lazyCreationFailures + 1;
        return None;
    }

    /**
     * `obtainResource`: with a permit free, take the last idle resource
     * (or give the permit back and fail when the pool is closed); without
     * one, try to create a resource; otherwise the caller must wait.
     */
    method ObtainResource(creation: Option<Res>) returns (r: Obtained<Res>)
      requires Valid()
      modifies this
      ensures Valid()
      ensures closed == old(closed) && closedResources == old(closedResources)
      ensures old(available) > 0 && old(closed) ==>
        r == PoolClosed && pool == old(pool) && available == old(available) && lent == old(lent) &&
        lazyBudget == old(lazyBudget)
      ensures old(available) > 0 && !old(closed) ==>
        && |old(pool)| > 0
        && r == Obtained(old(pool)[|old(pool)| - 1])
        && pool == old(pool)[..|old(pool)| - 1]
        && available == old(available) - 1 && lent == old(lent) + 1
        && lazyBudget == old(lazyBudget)
      ensures old(available) > 0 ==> lazyCreationFailures == old(lazyCreationFailures)
      ensures old(available) == 0 ==> pool == old(pool) && available == 0
      ensures old(available) == 0 && old(CreationAllowed()) && creation.Some? ==>
        r == Obtained(creation.value) && lazyBudget == old(lazyBudget) - 1 && lazyCreationFailures == 0 &&
        lent == old(lent) + 1
      ensures old(available) == 0 && old(CreationAllowed()) && creation.None? ==>
        r == MustWait && lazyBudget == old(lazyBudget) && lazyCreationFailures == old(lazyCreationFailures) + 1 &&
        lent == old(lent)
      ensures old(available) == 0 && !old(CreationAllowed()) ==>
        r == MustWait && lazyBudget == old(lazyBudget) && lazyCreationFailures == old(lazyCreationFailures) &&
        lent == old(lent)
    {
      if available > 0 {
        available := available - 1;
        if closed {
          available := available + 1;
          return PoolClosed;
        }
        var resource := pool[|pool| - 1];
        pool := pool[..|pool| - 1];
        lent := lent + 1;
        return Obtained(resource);
      }
      var created := CreateNewResourceIfBudgetAllows(creation);
      if created.Some? {
        return Obtained(created.value);
      }
      return MustWait;
    }

    /**
     * `releaseResource`: a resource handed back joins the idle list, or is
     * closed when the pool is closed (`closing` is what its `close` does);
     * either way one permit is released.
     */
    method ReleaseResource<E>(resource: Res, closing: Outcome<E>) returns (r: Outcome<E>)
      requires Valid() && lent > 0
      modifies this
      ensures Valid()
      ensures closed == old(closed) && lazyBudget == old(lazyBudget) && lazyCreationFailures == old(lazyCreationFailures)
      ensures available == old(available) + 1 && lent == old(lent) - 1
      ensures old(closed) ==> pool == old(pool) && closedResources == old(closedResources) + [resource] && r == closing
      ensures !old(closed) ==> pool == old(pool) + [resource] && closedResources == old(closedResources) && r == Pass
    {
      r := Pass;
      if closed {
        closedResources := closedResources + [resource];
        r := closing;
      } else {
        pool := pool + [resource];
      }
      available := available + 1;
      lent := lent - 1;
    }

    /**
     * `withResource`: obtain, run `block`, and hand the resource back
     * whatever the block did. A sequential caller cannot see the pool close
     * while the block runs, so the release never closes it. On an open pool the resource taken from the
     * idle list goes back to its place, so the idle list is as before; a
     * freshly created one joins it.
     */
    method WithResource<R, E>(creation: Option<Res>, block: Res -> Result<R, E>)
      returns (r: Result<R, UseError<E>>)
      requires Valid()
      modifies this
      ensures Valid()
      ensures closed == old(closed) && lent == old(lent)
      ensures old(closed) ==> r == Err(Closed) && pool == old(pool) && available == old(available)
      ensures !old(closed) && old(available) > 0 ==>
        pool == old(pool) && available == old(available) && lazyBudget == old(lazyBudget) &&
        r == match block(old(pool)[|old(pool)| - 1])
             case Ok(v) => Ok(v)
             case Err(e) => Err(Failed(e))
      ensures old(available) > 0 ==> lazyCreationFailures == old(lazyCreationFailures)
      ensures !old(closed) && old(available) == 0 && old(CreationAllowed()) && creation.Some? ==>
        && pool == old(pool) + [creation.value] && available == 1
        && lazyBudget == old(lazyBudget) - 1 && lazyCreationFailures == 0
        && r == match block(creation.value)
                case Ok(v) => Ok(v)
                case Err(e) => Err(Failed(e))
      ensures !old(closed) && old(available) == 0 && old(CreationAllowed()) && creation.None? ==>
        r == Err(Waiting) && pool == old(pool) && available == 0 &&
        lazyBudget == old(lazyBudget) && lazyCreationFailures == old(lazyCreationFailures) + 1
      ensures !old(closed) && old(available) == 0 && !old(CreationAllowed()) ==>
        r == Err(Waiting) && pool == old(pool) && available == 0 &&
        lazyBudget == old(lazyBudget) && lazyCreationFailures == old(lazyCreationFailures)
    {
      var obtained := ObtainResource(creation);
      match obtained
      case PoolClosed =>
        return Err(Closed);
      case MustWait =>
        return Err(Waiting);
      case Obtained(resource) =>
        var result := block(resource);
        // The pool is open here, so the release cannot close the resource.
        var _ := ReleaseResource<E>(resource, Pass);
        r := match result
             case Ok(v) => Ok(v)
             case Err(e) => Err(Failed(e));
        if !old(closed) && old(available) > 0 {
          assert old(pool)[..|old(pool)| - 1] + [resource] == old(pool);
        }
    }

    /**
     * `close`: once only. Marks the pool closed, closes the idle resources
     * from the last one back, releases one extra permit to wake waiters,
     * and rethrows the first close error with the later ones suppressed.
     */
    method Close<E>(closing: Res -> Outcome<E>) returns (r: Option<Thrown<E>>)
      requires Valid()
      modifies this
      ensures Valid()
      ensures old(closed) ==> r == None && pool == old(pool) && available == old(available) &&
                              closedResources == old(closedResources)
      ensures !old(closed) ==>
        && closed && pool == []
        && closedResources == old(closedResources) + Reversed(old(pool))
        && available == old(available) + 1
        && r == Grouped(Failures(Reversed(old(pool)), closing))
      ensures lent == old(lent) && lazyBudget == old(lazyBudget) && lazyCreationFailures == old(lazyCreationFailures)
    {
      if closed {
        return None;
      }
      closed := true;
      r := CloseIdle(closing);
      available := available + 1;
    }

    /** The loop of `close`: `pool.removeLast().close()` until the idle list is empty, collecting the errors. */
    method CloseIdle<E>(closing: Res -> Outcome<E>) returns (err: Option<Thrown<E>>)
      modifies this
      ensures pool == [] && closedResources == old(closedResources) + Reversed(old(pool))
      ensures err == Grouped(Failures(Reversed(old(pool)), closing))
      ensures closed == old(closed) && available == old(available) && lent == old(lent)
      ensures lazyBudget == old(lazyBudget) && lazyCreationFailures == old(lazyCreationFailures)
    {
      ghost var idle := pool;
      ghost var before := closedResources;
      err := None;
      while |pool| > 0
        invariant pool == idle[..|pool|]
        invariant closedResources == before + Reversed(idle[|pool|..])
        invariant err == Grouped(Failures(Reversed(idle[|pool|..]), closing))
        invariant closed == old(closed) && available == old(available) && lent == old(lent)
        invariant lazyBudget == old(lazyBudget) && lazyCreationFailures == old(lazyCreationFailures)
      {
        var m := |pool|;
        var resource := pool[m - 1];
        assert resource == idle[m - 1];
        ReversedSuffixStep(idle, m);
        GroupedStep(Reversed(idle[m..]), resource, closing);
        pool := pool[..m - 1];
        closedResources := closedResources + [resource];
        err := AddOutcome(err, closing(resource));
      }
      assert idle[0..] == idle;
    }
  }
}
