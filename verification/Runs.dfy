/** Runs of a state machine: a step function applied to one event after the other. */
module Runs {

  /** The state after the first `k` events. */
  function Run<S, E>(step: (S, E) -> S, start: S, events: seq<E>, k: nat): S
    requires k <= |events|
  {
    if k == 0 then start else step(Run(step, start, events, k - 1), events[k - 1])
  }

  predicate HoldsAt<S, E>(step: (S, E) -> S, start: S, events: seq<E>, holds: S -> bool, k: nat) {
    k <= |events| && holds(Run(step, start, events, k))
  }

  /** Each allowed step keeps the property. */
  ghost predicate Keeps<S(!new), E(!new)>(step: (S, E) -> S, holds: S -> bool, allowed: (S, E) -> bool) {
    forall s, e :: holds(s) && allowed(s, e) ==> holds(step(s, e))
  }

  /** The first `k` events are allowed when they come. */
  ghost predicate AllowedRun<S, E>(step: (S, E) -> S, start: S, events: seq<E>, allowed: (S, E) -> bool, k: nat)
    requires k <= |events|
  {
    forall i: nat :: i < k ==> allowed(Run(step, start, events, i), events[i])
  }

  /** What holds at first and is kept by each allowed step holds after every run of allowed events. */
  lemma {:induction false} Invariant<S(!new), E(!new)>(step: (S, E) -> S, start: S, events: seq<E>, holds: S -> bool,
                                                       allowed: (S, E) -> bool, k: nat)
    requires k <= |events| && holds(start) && Keeps(step, holds, allowed)
    requires AllowedRun(step, start, events, allowed, k)
    ensures HoldsAt(step, start, events, holds, k)
  {
    if k > 0 {
      Invariant(step, start, events, holds, allowed, k - 1);
      assert allowed(Run(step, start, events, k - 1), events[k - 1]);
    }
  }

  /** Each step keeps the property exactly unless it breaks it. */
  ghost predicate KeepsUnless<S(!new), E(!new)>(step: (S, E) -> S, holds: S -> bool, breaks: (S, E) -> bool) {
    forall s, e :: holds(s) ==> (holds(step(s, e)) <==> !breaks(s, e))
  }

  predicate BrokenAt<S, E>(step: (S, E) -> S, start: S, events: seq<E>, breaks: (S, E) -> bool, k: nat) {
    k < |events| && breaks(Run(step, start, events, k), events[k])
  }

  ghost predicate HoldsThroughout<S, E>(step: (S, E) -> S, start: S, events: seq<E>, holds: S -> bool, n: nat) {
    forall k: nat :: k <= n ==> HoldsAt(step, start, events, holds, k)
  }

  ghost predicate NeverBroken<S, E>(step: (S, E) -> S, start: S, events: seq<E>, breaks: (S, E) -> bool, n: nat) {
    forall k: nat :: k < n ==> !BrokenAt(step, start, events, breaks, k)
  }

  /** Such a property holds throughout exactly if no step breaks it. */
  lemma {:induction false} UnlessBroken<S(!new), E(!new)>(step: (S, E) -> S, start: S, events: seq<E>, holds: S -> bool,
                                                          breaks: (S, E) -> bool, n: nat)
    requires n <= |events| && holds(start) && KeepsUnless(step, holds, breaks)
    ensures HoldsThroughout(step, start, events, holds, n) <==> NeverBroken(step, start, events, breaks, n)
  {
    if n > 0 {
      UnlessBroken(step, start, events, holds, breaks, n - 1);
      assert HoldsAt(step, start, events, holds, n - 1) ==>
          (HoldsAt(step, start, events, holds, n) <==> !BrokenAt(step, start, events, breaks, n - 1));
      if NeverBroken(step, start, events, breaks, n) {
        forall k: nat | k <= n ensures HoldsAt(step, start, events, holds, k) {
          assert k == n ==> HoldsAt(step, start, events, holds, n - 1);
        }
      }
    }
  }

  /** The total of what the first `k` steps cost. */
  function Total<S, E>(step: (S, E) -> S, start: S, events: seq<E>, cost: (S, E) -> int, k: nat): int
    requires k <= |events|
  {
    if k == 0 then 0
    else Total(step, start, events, cost, k - 1) + cost(Run(step, start, events, k - 1), events[k - 1])
  }

  /** Each step keeps `good`, and changes `measure` by its cost. */
  ghost predicate Costs<S(!new), E(!new)>(step: (S, E) -> S, good: S -> bool, measure: S -> int, cost: (S, E) -> int) {
    forall s, e :: good(s) ==> good(step(s, e)) && measure(step(s, e)) == measure(s) + cost(s, e)
  }

  lemma {:induction false} CostsAddUp<S(!new), E(!new)>(step: (S, E) -> S, start: S, events: seq<E>, good: S -> bool,
                                                        measure: S -> int, cost: (S, E) -> int, k: nat)
    requires k <= |events| && good(start) && Costs(step, good, measure, cost)
    ensures good(Run(step, start, events, k))
    ensures measure(Run(step, start, events, k)) == measure(start) + Total(step, start, events, cost, k)
  {
    if k > 0 {
      CostsAddUp(step, start, events, good, measure, cost, k - 1);
    }
  }

  lemma {:induction false} TotalsAdd<S(!new), E(!new)>(step: (S, E) -> S, start: S, events: seq<E>, cost: (S, E) -> int,
                                                       part: (S, E) -> int, rest: (S, E) -> int, k: nat)
    requires k <= |events| && forall s, e :: cost(s, e) == part(s, e) + rest(s, e)
    ensures Total(step, start, events, cost, k)
         == Total(step, start, events, part, k) + Total(step, start, events, rest, k)
  {
    if k > 0 {
      TotalsAdd(step, start, events, cost, part, rest, k - 1);
    }
  }

  /** One more event is one more step, and changes nothing before it. */
  lemma {:induction false} RunSnoc<S, E>(step: (S, E) -> S, start: S, events: seq<E>, e: E, k: nat)
    requires k <= |events|
    ensures Run(step, start, events + [e], k) == Run(step, start, events, k)
    ensures k == |events| ==> Run(step, start, events + [e], k + 1) == step(Run(step, start, events, k), e)
  {
    if k > 0 {
      RunSnoc(step, start, events, e, k - 1);
    }
  }

  ghost predicate AlwaysHolds<S, E>(step: (S, E) -> S, start: S, events: seq<E>, holds: S -> bool) {
    forall k: nat :: k <= |events| ==> HoldsAt(step, start, events, holds, k)
  }

  lemma AlwaysHoldsSnoc<S, E>(step: (S, E) -> S, start: S, events: seq<E>, e: E, holds: S -> bool)
    requires AlwaysHolds(step, start, events, holds) && holds(step(Run(step, start, events, |events|), e))
    ensures AlwaysHolds(step, start, events + [e], holds)
    ensures Run(step, start, events + [e], |events| + 1) == step(Run(step, start, events, |events|), e)
  {
    RunSnoc(step, start, events, e, |events|);
    forall k: nat | k <= |events| + 1 ensures HoldsAt(step, start, events + [e], holds, k) {
      if k <= |events| {
        RunSnoc(step, start, events, e, k);
        assert HoldsAt(step, start, events, holds, k);
      }
    }
  }

  /** The state after all events, from the front. */
  function RunAll<S, E>(step: (S, E) -> S, s: S, events: seq<E>): S
    decreases |events|
  {
    if events == [] then s else RunAll(step, step(s, events[0]), events[1..])
  }

  lemma {:induction false} RunAllSnoc<S, E>(step: (S, E) -> S, s: S, events: seq<E>, e: E)
    ensures RunAll(step, s, events + [e]) == step(RunAll(step, s, events), e)
    decreases |events|
  {
    if events == [] {
      assert ([] + [e])[1..] == [];
    } else {
      assert (events + [e])[1..] == events[1..] + [e];
      RunAllSnoc(step, step(s, events[0]), events[1..], e);
    }
  }

  /** Both ways of running agree. */
  lemma {:induction false} RunAllIsRun<S, E>(step: (S, E) -> S, s: S, events: seq<E>)
    ensures RunAll(step, s, events) == Run(step, s, events, |events|)
    decreases |events|
  {
    if events != [] {
      var front, last := events[..|events| - 1], events[|events| - 1];
      assert events == front + [last];
      RunAllIsRun(step, s, front);
      RunAllSnoc(step, s, front, last);
      RunSnoc(step, s, front, last, |front|);
    }
  }
}
