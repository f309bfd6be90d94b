/**
 The tunnel pool under concurrency: Acquire, Recycle and the eviction sweeps split into the steps that they take under
 the mutex, in any interleaving of any number of threads (ltfp/transport/tunnel_pool.go). The steps are those of module
 TunnelPool, which the pool's methods implement.
 */
module PoolSteps {
  import opened Results
  import opened Runs
  import opened TunnelPool

  /**
   The pool, and what is in flight between critical sections: `probing` holds the tunnels between pop and commit of an
   Acquire, `recycling` those that Recycle has taken out of use (their times mean nothing), `waiting` the notify channel
   that each blocked Acquire listens to, `closing` counts tunnels on their way to closedCount, and `crediting` returns
   to the queue that are not yet in recycledCount. The last three fields count events: fresh insertions, successful
   calls of Remove, and returns from use to the queue.
   */
  datatype State = State(
    pool: Pool, probing: map<nat, Entry>, recycling: map<nat, Entry>, waiting: map<nat, nat>, closing: nat,
    crediting: nat,
    inserted: nat, removed: nat, returned: nat)

  const START := State(Pool([], map[], 0, 0, 0), map[], map[], map[], 0, 0, 0, 0, 0)

  datatype Event =
    | Put(tunnel: Tunnel, state: TunnelState, now: Time)
    | Pop(thread: nat)
    | Wake(thread: nat)
    | GiveUp(thread: nat)
    | Discard(thread: nat)
    | PushBack(thread: nat, now: Time)
    | Commit(thread: nat)
    | FinishClose
    | Remove(id: ID)
    | StartRecycle(thread: nat, tunnel: Tunnel)
    | AbortRecycle(thread: nat)
    | PutRecycled(thread: nat, state: TunnelState, now: Time)
    | Credit
    | EvictExpired(now: Time, ttl: int)
    | EvictSeen(candidates: seq<Candidate>)

  predicate Free(s: State, thread: nat) {
    thread !in s.probing && thread !in s.recycling && thread !in s.waiting
  }

  // ---------------------------------------------------------------------------------------------
  // Steps; one that is not enabled changes nothing
  // ---------------------------------------------------------------------------------------------

  function PutStep(maxIdle: nat, s: State, tunnel: Tunnel, state: TunnelState, now: Time): State {
    var put := PutIdleSpec(maxIdle, s.pool, tunnel, state, now);
    s.(pool := put.0,
       inserted := s.inserted + if put.1 == None && Key(tunnel) !in QueueKeys(s.pool.queue) then 1 else 0)
  }

  /** An Acquire takes the oldest tunnel, or starts to listen to the current notify channel. */
  function PopStep(s: State, thread: nat): State {
    if !Free(s, thread) then s
    else if s.pool.queue == [] then s.(waiting := s.waiting[thread := s.pool.generation])
    else s.(pool := s.pool.(queue := s.pool.queue[1..]), probing := s.probing[thread := s.pool.queue[0]])
  }

  /** A waiter goes on once its channel is closed, that is, no longer the current one. */
  function WakeStep(s: State, thread: nat): State {
    if thread in s.waiting && s.waiting[thread] != s.pool.generation then s.(waiting := s.waiting - {thread}) else s
  }

  function PushBackStep(s: State, thread: nat, now: Time): State {
    if thread in s.probing
    then s.(pool := PushSpec(s.pool, s.probing[thread], now), probing := s.probing - {thread}) else s
  }

  function CommitStep(s: State, thread: nat): State {
    if thread in s.probing
    then s.(pool := CommitSpec(s.pool, s.probing[thread].tunnel), probing := s.probing - {thread}) else s
  }

  function RemoveStep(s: State, id: ID): State {
    var result := RemoveSpec(s.pool, id);
    s.(pool := result.0, removed := s.removed + if result.1 == None then 1 else 0)
  }

  function StartRecycleStep(s: State, thread: nat, tunnel: Tunnel): State {
    if Free(s, thread) && Key(tunnel) != "" && Key(tunnel) in s.pool.inUse
    then s.(pool := s.pool.(inUse := s.pool.inUse - {Key(tunnel)}),
            recycling := s.recycling[thread := Entry(tunnel, 0)])
    else s
  }

  /** The end of a Recycle, given what storing the tunnel gave. */
  function Recycled(s: State, thread: nat, put: (Pool, Option<PoolError>)): State {
    if put.1 == None then
      s.(pool := put.0, recycling := s.recycling - {thread}, crediting := s.crediting + 1, returned := s.returned + 1)
    else
      s.(recycling := s.recycling - {thread}, closing := s.closing + 1)
  }

  function PutRecycledStep(maxIdle: nat, s: State, thread: nat, state: TunnelState, now: Time): State {
    if thread in s.recycling
    then Recycled(s, thread, PutIdleSpec(maxIdle, s.pool, s.recycling[thread].tunnel, state, now)) else s
  }

  function EvictStep(s: State, drop: set<string>): State {
    s.(pool := s.pool.(queue := Keep(s.pool.queue, drop)), closing := s.closing + |drop|)
  }

  function Step(maxIdle: nat, s: State, e: Event): State {
    match e
    case Put(tunnel, state, now) => PutStep(maxIdle, s, tunnel, state, now)
    case Pop(thread) => PopStep(s, thread)
    case Wake(thread) => WakeStep(s, thread)
    case GiveUp(thread) => s.(waiting := s.waiting - {thread})
    case Discard(thread) =>
      if thread in s.probing then s.(probing := s.probing - {thread}, closing := s.closing + 1) else s
    case PushBack(thread, now) => PushBackStep(s, thread, now)
    case Commit(thread) => CommitStep(s, thread)
    case FinishClose =>
      if s.closing > 0 then s.(closing := s.closing - 1, pool := s.pool.(closed := s.pool.closed + 1)) else s
    case Remove(id) => RemoveStep(s, id)
    case StartRecycle(thread, tunnel) => StartRecycleStep(s, thread, tunnel)
    case AbortRecycle(thread) =>
      if thread in s.recycling then s.(recycling := s.recycling - {thread}, closing := s.closing + 1) else s
    case PutRecycled(thread, state, now) => PutRecycledStep(maxIdle, s, thread, state, now)
    case Credit =>
      if s.crediting > 0 then s.(crediting := s.crediting - 1, pool := s.pool.(recycled := s.pool.recycled + 1)) else s
    case EvictExpired(now, ttl) => EvictStep(s, ExpiredKeys(s.pool.queue, now, ttl))
    case EvictSeen(candidates) => EvictStep(s, CandidateKeys(s.pool.queue, candidates))
  }

  function Stepping(maxIdle: nat): (State, Event) -> State {
    (s: State, e: Event) => Step(maxIdle, s, e)
  }

  function After(maxIdle: nat, events: seq<Event>, k: nat): State
    requires k <= |events|
  {
    Run(Stepping(maxIdle), START, events, k)
  }

  // ---------------------------------------------------------------------------------------------
  // The size of the queue
  // ---------------------------------------------------------------------------------------------

  function Idle(s: State): nat {
    |s.pool.queue|
  }

  lemma MapInsert<K, V>(m: map<K, V>, k: K, v: V)
    requires k !in m
    ensures |m[k := v]| == |m| + 1 && m[k := v].Keys == m.Keys + {k}
  {
    assert m[k := v].Keys == m.Keys + {k};
    assert |m[k := v]| == |m[k := v].Keys| && |m| == |m.Keys|;
  }

  lemma MapDelete<K, V>(m: map<K, V>, k: K)
    ensures |m - {k}| == (if k in m then |m| - 1 else |m|) && (m - {k}).Keys == m.Keys - {k}
  {
    if k in m {
      assert (m - {k}).Keys == m.Keys - {k};
      assert |m - {k}| == |(m - {k}).Keys| && |m| == |m.Keys|;
    } else {
      assert m - {k} == m;
    }
  }

  lemma KeepShrinks(queue: seq<Entry>, drop: set<string>)
    ensures |Keep(queue, drop)| <= |queue|
  {
    KeepKeys(queue, drop);
  }

  /** PutIdle respects the limit. */
  lemma PutSize(maxIdle: nat, pool: Pool, tunnel: Tunnel, state: TunnelState, now: Time)
    ensures var queue := PutIdleSpec(maxIdle, pool, tunnel, state, now).0.queue;
            |queue| == |pool.queue| || |queue| == |pool.queue| + 1 <= maxIdle
  {
  }

  predicate Capped(s: State, limit: nat) {
    Idle(s) + |s.probing| <= limit
  }

  lemma ProbingStepCapped(maxIdle: nat, s: State, e: Event, limit: nat)
    requires Capped(s, limit) && (e.Pop? || e.Discard? || e.PushBack? || e.Commit?)
    ensures Capped(Step(maxIdle, s, e), limit)
  {
    var thread := e.thread;
    MapDelete(s.probing, thread);
    if e.Pop? && Free(s, thread) && s.pool.queue != [] {
      MapInsert(s.probing, thread, s.pool.queue[0]);
    }
  }

  lemma PutCapped(maxIdle: nat, s: State, e: Event, acquirers: nat)
    requires Capped(s, maxIdle + acquirers) && |s.probing| <= acquirers && (e.Put? || e.PutRecycled?)
    ensures Capped(Step(maxIdle, s, e), maxIdle + acquirers)
  {
    if e.Put? {
      PutSize(maxIdle, s.pool, e.tunnel, e.state, e.now);
    } else if e.thread in s.recycling {
      PutSize(maxIdle, s.pool, s.recycling[e.thread].tunnel, e.state, e.now);
    }
  }

  lemma CapStep(maxIdle: nat, s: State, e: Event, acquirers: nat)
    requires Capped(s, maxIdle + acquirers) && |s.probing| <= acquirers
    ensures Capped(Step(maxIdle, s, e), maxIdle + acquirers)
  {
    match e
    case Put(tunnel, state, now) => PutCapped(maxIdle, s, e, acquirers);
    case PutRecycled(thread, state, now) => PutCapped(maxIdle, s, e, acquirers);
    case Pop(thread) => ProbingStepCapped(maxIdle, s, e, maxIdle + acquirers);
    case Discard(thread) => ProbingStepCapped(maxIdle, s, e, maxIdle + acquirers);
    case PushBack(thread, now) => ProbingStepCapped(maxIdle, s, e, maxIdle + acquirers);
    case Commit(thread) => ProbingStepCapped(maxIdle, s, e, maxIdle + acquirers);
    case Remove(id) => KeepShrinks(s.pool.queue, {id.trimmed});
    case EvictExpired(now, ttl) => KeepShrinks(s.pool.queue, ExpiredKeys(s.pool.queue, now, ttl));
    case EvictSeen(candidates) => KeepShrinks(s.pool.queue, CandidateKeys(s.pool.queue, candidates));
    case _ =>
  }

  /** With at most `acquirers` threads between pop and commit, the queue and the tunnels being probed stay bounded. */
  lemma QueueIsBounded(maxIdle: nat, events: seq<Event>, k: nat, acquirers: nat)
    requires k <= |events| && forall i: nat :: i < k ==> |After(maxIdle, events, i).probing| <= acquirers
    ensures Idle(After(maxIdle, events, k)) + |After(maxIdle, events, k).probing| <= maxIdle + acquirers
  {
    var capped, few := (s: State) => Capped(s, maxIdle + acquirers), (s: State, e: Event) => |s.probing| <= acquirers;
    forall s, e | capped(s) && few(s, e) ensures capped(Stepping(maxIdle)(s, e)) {
      CapStep(maxIdle, s, e, acquirers);
    }
    forall i: nat | i < k ensures few(Run(Stepping(maxIdle), START, events, i), events[i]) {
      assert |After(maxIdle, events, i).probing| <= acquirers;
    }
    Invariant(Stepping(maxIdle), START, events, capped, few, k);
  }

  /** A tunnel goes back to a queue that is full already: the one step that passes the limit. */
  predicate Overfills(maxIdle: nat, s: State, e: Event) {
    && e.PushBack? && e.thread in s.probing && Idle(s) == maxIdle
    && Key(s.probing[e.thread].tunnel) != "" && Key(s.probing[e.thread].tunnel) !in QueueKeys(s.pool.queue)
  }

  lemma LimitStep(maxIdle: nat, s: State, e: Event)
    requires Idle(s) <= maxIdle
    ensures Idle(Step(maxIdle, s, e)) <= maxIdle <==> !Overfills(maxIdle, s, e)
  {
    match e
    case Put(tunnel, state, now) => PutSize(maxIdle, s.pool, tunnel, state, now);
    case PutRecycled(thread, state, now) =>
      if thread in s.recycling {
        PutSize(maxIdle, s.pool, s.recycling[thread].tunnel, state, now);
      }
    case Remove(id) => KeepShrinks(s.pool.queue, {id.trimmed});
    case EvictExpired(now, ttl) => KeepShrinks(s.pool.queue, ExpiredKeys(s.pool.queue, now, ttl));
    case EvictSeen(candidates) => KeepShrinks(s.pool.queue, CandidateKeys(s.pool.queue, candidates));
    case _ =>
  }

  /**
   The queue stays within the limit throughout a run exactly if no cancelled Acquire puts a tunnel back into a full
   queue.
   */
  lemma LimitHoldsExactly(maxIdle: nat, events: seq<Event>)
    ensures (forall k: nat :: k <= |events| ==> Idle(After(maxIdle, events, k)) <= maxIdle)
            <==> forall k: nat :: k < |events| ==> !Overfills(maxIdle, After(maxIdle, events, k), events[k])
  {
    var within, overfills := (s: State) => Idle(s) <= maxIdle, (s: State, e: Event) => Overfills(maxIdle, s, e);
    forall s, e | within(s) ensures within(Stepping(maxIdle)(s, e)) <==> !overfills(s, e) {
      LimitStep(maxIdle, s, e);
    }
    UnlessBroken(Stepping(maxIdle), START, events, within, overfills, |events|);
    assert forall k: nat :: k <= |events| ==>
        (HoldsAt(Stepping(maxIdle), START, events, within, k) <==> Idle(After(maxIdle, events, k)) <= maxIdle);
    assert forall k: nat :: k < |events| ==>
        (BrokenAt(Stepping(maxIdle), START, events, overfills, k)
         <==> Overfills(maxIdle, After(maxIdle, events, k), events[k]));
  }

  /** The limit itself can be passed: a tunnel that a cancelled Acquire puts back is not refused. */
  lemma LimitCanBePassed(a: Tunnel, b: Tunnel)
    requires Key(a) != "" && Key(b) != "" && Key(a) != Key(b)
    ensures var events := [Put(a, TunnelState.Idle, 1), Pop(0), Put(b, TunnelState.Idle, 2), PushBack(0, 3)];
            Idle(After(1, events, 4)) == 2
  {
    var events := [Put(a, TunnelState.Idle, 1), Pop(0), Put(b, TunnelState.Idle, 2), PushBack(0, 3)];
    assert After(1, events, 0) == START;
    assert After(1, events, 1).pool.queue == [Entry(a, 1)];
    var s2 := After(1, events, 2);
    assert s2 == PopStep(After(1, events, 1), 0);
    assert s2.pool.queue == [] && s2.probing == map[0 := Entry(a, 1)];
    var s3 := After(1, events, 3);
    assert s3 == PutStep(1, s2, b, TunnelState.Idle, 2);
    assert s3.pool.queue == [Entry(b, 2)] && s3.probing == s2.probing;
    assert QueueKeys(s3.pool.queue) == {Key(b)};
    assert After(1, events, 4) == PushBackStep(s3, 0, 3);
  }

  // A run in which the queue reaches the bound.

  function Name(n: nat): string {
    seq(n + 1, _ => 'a')
  }

  function Named(n: nat): Tunnel {
    Tunnel(n, ID(Name(n), Name(n)))
  }

  function Few(acquirers: nat): State -> bool {
    (s: State) => |s.probing| <= acquirers
  }

  /** Never more than that many threads are between pop and commit. */
  ghost predicate Bounded(maxIdle: nat, events: seq<Event>, acquirers: nat) {
    AlwaysHolds(Stepping(maxIdle), START, events, Few(acquirers))
  }

  function Final(maxIdle: nat, events: seq<Event>): State {
    After(maxIdle, events, |events|)
  }

  lemma Extend(maxIdle: nat, events: seq<Event>, e: Event, s: State, next: State, acquirers: nat)
    requires Bounded(maxIdle, events, acquirers) && s == Final(maxIdle, events)
    requires next == Step(maxIdle, s, e) && |next.probing| <= acquirers
    ensures Bounded(maxIdle, events + [e], acquirers) && next == Final(maxIdle, events + [e])
  {
    AlwaysHoldsSnoc(Stepping(maxIdle), START, events, e, Few(acquirers));
  }

  /** Threads `from` to `to` probe tunnels named after them, and nothing is in use, recycled or waiting. */
  ghost predicate ProbingNamed(s: State, from: nat, to: nat) {
    && s.pool.inUse == map[] && s.recycling == map[] && s.waiting == map[]
    && from <= to && |s.probing| == to - from && (forall t: nat :: t in s.probing <==> from <= t < to)
    && forall t :: t in s.probing ==> s.probing[t].tunnel == Named(t)
  }

  lemma PutFirst(maxIdle: nat, s: State, n: nat)
    requires maxIdle > 0 && s.pool.queue == [] && s.pool.inUse == map[]
    ensures var stored := Step(maxIdle, s, Put(Named(n), TunnelState.Idle, 1));
            stored == s.(pool := s.pool.(queue := [Entry(Named(n), 1)], generation := s.pool.generation + 1),
                         inserted := s.inserted + 1)
  {
  }

  lemma PopOnly(maxIdle: nat, s: State, n: nat, entry: Entry) returns (popped: State)
    requires s.pool.queue == [entry] && ProbingNamed(s, 0, n) && entry.tunnel == Named(n)
    ensures popped == Step(maxIdle, s, Pop(n)) && popped.pool.queue == [] && ProbingNamed(popped, 0, n + 1)
  {
    popped := Step(maxIdle, s, Pop(n));
    MapInsert(s.probing, n, entry);
    assert popped.probing == s.probing[n := entry];
  }

  lemma PutPop(maxIdle: nat, s: State, n: nat) returns (stored: State, popped: State)
    requires maxIdle > 0 && s.pool.queue == [] && ProbingNamed(s, 0, n)
    ensures stored == Step(maxIdle, s, Put(Named(n), TunnelState.Idle, 1)) && stored.probing == s.probing
    ensures popped == Step(maxIdle, stored, Pop(n)) && popped.pool.queue == [] && ProbingNamed(popped, 0, n + 1)
  {
    stored := Step(maxIdle, s, Put(Named(n), TunnelState.Idle, 1));
    PutFirst(maxIdle, s, n);
    popped := PopOnly(maxIdle, stored, n, Entry(Named(n), 1));
  }

  lemma {:induction false} FillProbing(maxIdle: nat, acquirers: nat, n: nat) returns (events: seq<Event>, s: State)
    requires maxIdle > 0 && n <= acquirers
    ensures Bounded(maxIdle, events, acquirers) && s == Final(maxIdle, events)
    ensures s.pool.queue == [] && ProbingNamed(s, 0, n)
  {
    if n == 0 {
      events, s := [], START;
    } else {
      events, s := FillProbing(maxIdle, acquirers, n - 1);
      var stored, popped := PutPop(maxIdle, s, n - 1);
      Extend(maxIdle, events, Put(Named(n - 1), TunnelState.Idle, 1), s, stored, acquirers);
      events := events + [Put(Named(n - 1), TunnelState.Idle, 1)];
      Extend(maxIdle, events, Pop(n - 1), stored, popped, acquirers);
      events, s := events + [Pop(n - 1)], popped;
    }
  }

  /** All ids in the queue are no longer than `short`, or longer than `low` and no longer than `high`. */
  ghost predicate Lengths(queue: seq<Entry>, short: nat, low: nat, high: nat) {
    forall key :: key in QueueKeys(queue) ==> |key| <= short || low < |key| <= high
  }

  lemma PutOne(maxIdle: nat, s: State, acquirers: nat, n: nat) returns (stored: State)
    requires n < maxIdle && Idle(s) == n && ProbingNamed(s, 0, acquirers)
    requires Lengths(s.pool.queue, 0, acquirers, acquirers + n)
    ensures stored == Step(maxIdle, s, Put(Named(acquirers + n), TunnelState.Idle, 1))
    ensures Idle(stored) == n + 1 && ProbingNamed(stored, 0, acquirers)
    ensures Lengths(stored.pool.queue, 0, acquirers, acquirers + n + 1)
  {
    stored := Step(maxIdle, s, Put(Named(acquirers + n), TunnelState.Idle, 1));
    SnocKeys(s.pool.queue, Entry(Named(acquirers + n), 1));
    assert stored.pool.queue == s.pool.queue + [Entry(Named(acquirers + n), 1)];
  }

  lemma {:induction false} FillQueue(maxIdle: nat, acquirers: nat, n: nat) returns (events: seq<Event>, s: State)
    requires 0 < maxIdle && n <= maxIdle
    ensures Bounded(maxIdle, events, acquirers) && s == Final(maxIdle, events)
    ensures Idle(s) == n && ProbingNamed(s, 0, acquirers) && Lengths(s.pool.queue, 0, acquirers, acquirers + n)
  {
    if n == 0 {
      events, s := FillProbing(maxIdle, acquirers, acquirers);
    } else {
      events, s := FillQueue(maxIdle, acquirers, n - 1);
      var stored := PutOne(maxIdle, s, acquirers, n - 1);
      Extend(maxIdle, events, Put(Named(acquirers + n - 1), TunnelState.Idle, 1), s, stored, acquirers);
      events, s := events + [Put(Named(acquirers + n - 1), TunnelState.Idle, 1)], stored;
    }
  }

  lemma PushOne(maxIdle: nat, s: State, acquirers: nat, n: nat) returns (pushed: State)
    requires n < acquirers && ProbingNamed(s, n, acquirers) && Lengths(s.pool.queue, n, acquirers, acquirers + maxIdle)
    ensures pushed == Step(maxIdle, s, PushBack(n, 2))
    ensures Idle(pushed) == Idle(s) + 1 && ProbingNamed(pushed, n + 1, acquirers)
    ensures Lengths(pushed.pool.queue, n + 1, acquirers, acquirers + maxIdle)
  {
    var entry := s.probing[n];
    var stored := Entry(entry.tunnel, if entry.insertedAt == 0 then 2 else entry.insertedAt);
    assert |Key(entry.tunnel)| == n + 1 && Key(entry.tunnel) !in QueueKeys(s.pool.queue);
    pushed := s.(pool := s.pool.(queue := s.pool.queue + [stored], generation := s.pool.generation + 1),
                 probing := s.probing - {n});
    assert pushed == Step(maxIdle, s, PushBack(n, 2));
    assert Lengths(pushed.pool.queue, n + 1, acquirers, acquirers + maxIdle) by {
      SnocKeys(s.pool.queue, stored);
    }
    MapDelete(s.probing, n);
  }

  lemma PushNext(maxIdle: nat, acquirers: nat, n: nat, before: seq<Event>, s: State)
    returns (events: seq<Event>, next: State)
    requires Bounded(maxIdle, before, acquirers) && s == Final(maxIdle, before)
    requires n < acquirers && ProbingNamed(s, n, acquirers) && Lengths(s.pool.queue, n, acquirers, acquirers + maxIdle)
    ensures Bounded(maxIdle, events, acquirers) && next == Final(maxIdle, events) && Idle(next) == Idle(s) + 1
    ensures ProbingNamed(next, n + 1, acquirers) && Lengths(next.pool.queue, n + 1, acquirers, acquirers + maxIdle)
  {
    next := PushOne(maxIdle, s, acquirers, n);
    events := before + [PushBack(n, 2)];
    Extend(maxIdle, before, PushBack(n, 2), s, next, acquirers);
  }

  lemma {:induction false} PushAll(maxIdle: nat, acquirers: nat, n: nat) returns (events: seq<Event>, s: State)
    requires 0 < maxIdle && n <= acquirers
    ensures Bounded(maxIdle, events, acquirers) && s == Final(maxIdle, events)
    ensures Idle(s) == maxIdle + n && ProbingNamed(s, n, acquirers)
    ensures Lengths(s.pool.queue, n, acquirers, acquirers + maxIdle)
  {
    if n == 0 {
      events, s := FillQueue(maxIdle, acquirers, maxIdle);
    } else {
      events, s := PushAll(maxIdle, acquirers, n - 1);
      events, s := PushNext(maxIdle, acquirers, n - 1, events, s);
    }
  }

  /** The bound is sharp: for any limit and any number of acquirers some run has that many idle tunnels at once. */
  lemma BoundIsAttained(maxIdle: nat, acquirers: nat) returns (events: seq<Event>)
    requires maxIdle > 0
    ensures forall k: nat :: k <= |events| ==> |After(maxIdle, events, k).probing| <= acquirers
    ensures Idle(After(maxIdle, events, |events|)) == maxIdle + acquirers
  {
    var s;
    events, s := PushAll(maxIdle, acquirers, acquirers);
    forall k: nat | k <= |events| ensures |After(maxIdle, events, k).probing| <= acquirers {
      assert HoldsAt(Stepping(maxIdle), START, events, Few(acquirers), k);
    }
  }

  // ---------------------------------------------------------------------------------------------
  // Wakeups
  // ---------------------------------------------------------------------------------------------

  /** Whoever listens to the current notify channel, and so would stay blocked, has nothing to miss. */
  ghost predicate NobodyMisses(s: State) {
    forall t :: t in s.waiting ==>
      s.waiting[t] <= s.pool.generation && (s.waiting[t] == s.pool.generation ==> s.pool.queue == [])
  }

  /** Storing a tunnel moves on to the next notify channel if it makes the queue longer, and never goes back. */
  lemma PutNotifies(maxIdle: nat, pool: Pool, tunnel: Tunnel, state: TunnelState, now: Time)
    ensures var next := PutIdleSpec(maxIdle, pool, tunnel, state, now).0;
            || next.generation == pool.generation + 1
            || (next.generation == pool.generation && |next.queue| == |pool.queue|)
  {
  }

  /**
   A step that keeps the waiters, and either shortens the queue or moves on to the next channel, keeps them informed.
   */
  lemma Informed(s: State, next: State)
    requires NobodyMisses(s) && next.waiting == s.waiting
    requires || next.pool.generation == s.pool.generation + 1
             || (next.pool.generation == s.pool.generation && Idle(next) <= Idle(s))
    ensures NobodyMisses(next)
    ensures Idle(next) > Idle(s) ==> forall t :: t in s.waiting ==> s.waiting[t] != next.pool.generation
  {
  }

  lemma GrowingWakeup(maxIdle: nat, s: State, e: Event)
    requires NobodyMisses(s) && (e.Put? || e.PutRecycled? || e.PushBack?)
    ensures var next := Step(maxIdle, s, e);
            && NobodyMisses(next)
            && (Idle(next) > Idle(s) ==> forall t :: t in s.waiting ==> s.waiting[t] != next.pool.generation)
  {
    if e.Put? {
      PutNotifies(maxIdle, s.pool, e.tunnel, e.state, e.now);
    } else if e.PutRecycled? && e.thread in s.recycling {
      PutNotifies(maxIdle, s.pool, s.recycling[e.thread].tunnel, e.state, e.now);
    }
    Informed(s, Step(maxIdle, s, e));
  }

  lemma ShrinkingWakeup(maxIdle: nat, s: State, e: Event)
    requires NobodyMisses(s) && (e.Remove? || e.EvictExpired? || e.EvictSeen?)
    ensures NobodyMisses(Step(maxIdle, s, e)) && Idle(Step(maxIdle, s, e)) <= Idle(s)
  {
    match e {
      case Remove(id) => KeepShrinks(s.pool.queue, {id.trimmed});
      case EvictExpired(now, ttl) => KeepShrinks(s.pool.queue, ExpiredKeys(s.pool.queue, now, ttl));
      case EvictSeen(candidates) => KeepShrinks(s.pool.queue, CandidateKeys(s.pool.queue, candidates));
    }
    Informed(s, Step(maxIdle, s, e));
  }

  lemma WakeupStep(maxIdle: nat, s: State, e: Event)
    requires NobodyMisses(s)
    ensures NobodyMisses(Step(maxIdle, s, e))
    ensures Idle(Step(maxIdle, s, e)) > Idle(s) ==>
              forall t :: t in s.waiting ==> s.waiting[t] != Step(maxIdle, s, e).pool.generation
  {
    if e.Put? || e.PutRecycled? || e.PushBack? {
      GrowingWakeup(maxIdle, s, e);
    } else if e.Remove? || e.EvictExpired? || e.EvictSeen? {
      ShrinkingWakeup(maxIdle, s, e);
    }
  }

  /** In every reachable state a blocked Acquire whose channel is still open implies an empty queue. */
  lemma NoLostWakeup(maxIdle: nat, events: seq<Event>, k: nat, thread: nat)
    requires k <= |events| && thread in After(maxIdle, events, k).waiting
    ensures var s := After(maxIdle, events, k); s.waiting[thread] == s.pool.generation ==> s.pool.queue == []
  {
    AlwaysNobodyMisses(maxIdle, events, k);
  }

  lemma AlwaysNobodyMisses(maxIdle: nat, events: seq<Event>, k: nat)
    requires k <= |events|
    ensures NobodyMisses(After(maxIdle, events, k))
  {
    var fine, any := (s: State) => NobodyMisses(s), (s: State, e: Event) => true;
    forall s, e | fine(s) ensures fine(Stepping(maxIdle)(s, e)) {
      WakeupStep(maxIdle, s, e);
    }
    Invariant(Stepping(maxIdle), START, events, fine, any, k);
  }

  /** Every insertion that grows the queue wakes every waiter. */
  lemma GrowthWakesEveryone(maxIdle: nat, events: seq<Event>, k: nat, thread: nat)
    requires k < |events| && thread in After(maxIdle, events, k).waiting
    requires Idle(After(maxIdle, events, k + 1)) > Idle(After(maxIdle, events, k))
    ensures thread !in WakeStep(After(maxIdle, events, k + 1), thread).waiting
  {
    AlwaysNobodyMisses(maxIdle, events, k);
    WakeupStep(maxIdle, After(maxIdle, events, k), events[k]);
  }

  // ---------------------------------------------------------------------------------------------
  // One place per id
  // ---------------------------------------------------------------------------------------------

  function Held(m: map<nat, Entry>): set<string> {
    set t | t in m :: Key(m[t].tunnel)
  }

  /** No two threads hold the same id: there are as many ids as threads. */
  predicate Injective(m: map<nat, Entry>) {
    |Held(m)| == |m|
  }

  /** No id is in two places: in the queue, in use, being probed, or being recycled; and no blank one is around. */
  predicate Apart(queue: set<string>, inUse: set<string>, probing: set<string>, recycling: set<string>) {
    && queue !! inUse && queue !! probing && queue !! recycling
    && inUse !! probing && inUse !! recycling && probing !! recycling
    && "" !in queue && "" !in probing && "" !in recycling
  }

  predicate OnePlacePerID(s: State) {
    && DistinctKeys(s.pool.queue) && Injective(s.probing) && Injective(s.recycling)
    && Apart(QueueKeys(s.pool.queue), s.pool.inUse.Keys, Held(s.probing), Held(s.recycling))
  }

  /** PutIdle takes a tunnel whose id is in flight. */
  predicate PutClashes(maxIdle: nat, s: State, tunnel: Tunnel, state: TunnelState, now: Time) {
    && PutIdleSpec(maxIdle, s.pool, tunnel, state, now).1 == None
    && (Key(tunnel) in Held(s.probing) || Key(tunnel) in Held(s.recycling))
  }

  /** A tunnel is handed out under the id that it reports, and this, white space included, is the id of another one. */
  predicate CommitClashes(s: State, thread: nat) {
    && thread in s.probing
    && var raw := s.probing[thread].tunnel.id.raw;
       raw in QueueKeys(s.pool.queue) || raw in Held(s.probing - {thread}) || raw in Held(s.recycling)
  }

  /** The steps that put an id in two places. */
  predicate Clashes(maxIdle: nat, s: State, e: Event) {
    match e
    case Put(tunnel, state, now) => PutClashes(maxIdle, s, tunnel, state, now)
    case Commit(thread) => CommitClashes(s, thread)
    case _ => false
  }

  /** The step hands out a tunnel under an id that is in use, so that the one in use is forgotten. */
  predicate Overwrites(s: State, e: Event) {
    e.Commit? && CommitLoses(s, e.thread)
  }

  predicate Allowed(maxIdle: nat, s: State, e: Event) {
    !Clashes(maxIdle, s, e) && !Overwrites(s, e)
  }

  function Clashing(maxIdle: nat): (State, Event) -> bool {
    (s: State, e: Event) => Clashes(maxIdle, s, e)
  }

  function Refusing(maxIdle: nat): (State, Event) -> bool {
    (s: State, e: Event) => !Allowed(maxIdle, s, e)
  }

  lemma HeldInsert(m: map<nat, Entry>, t: nat, e: Entry)
    requires t !in m
    ensures Held(m[t := e]) == Held(m) + {Key(e.tunnel)}
  {
    var m' := m[t := e];
    assert forall u :: u in m ==> m'[u] == m[u];
    forall key ensures key in Held(m') <==> key in Held(m) || key == Key(e.tunnel) {
      if key in Held(m) {
        var u :| u in m && Key(m[u].tunnel) == key;
        assert u in m' && Key(m'[u].tunnel) == key;
      }
      if key == Key(e.tunnel) {
        assert t in m' && Key(m'[t].tunnel) == key;
      }
    }
  }

  lemma HeldSize(m: map<nat, Entry>)
    ensures |Held(m)| <= |m|
    decreases |m|
  {
    if m == map[] {
      assert Held(m) == {};
    } else {
      var t :| t in m;
      MapDelete(m, t);
      HeldSize(m - {t});
      HeldInsert(m - {t}, t, m[t]);
      assert (m - {t})[t := m[t]] == m;
    }
  }

  /** A thread that holds an id of its own. */
  lemma HeldDelete(m: map<nat, Entry>, t: nat)
    requires t in m && Injective(m)
    ensures Key(m[t].tunnel) in Held(m) && Held(m - {t}) == Held(m) - {Key(m[t].tunnel)} && Injective(m - {t})
  {
    var rest, key := m - {t}, Key(m[t].tunnel);
    MapDelete(m, t);
    HeldSize(rest);
    HeldInsert(rest, t, m[t]);
    assert rest[t := m[t]] == m;
    assert key in Held(rest) ==> Held(rest) + {key} == Held(rest);
  }

  lemma InsertInjective(m: map<nat, Entry>, t: nat, e: Entry)
    requires t !in m && Injective(m) && Key(e.tunnel) !in Held(m)
    ensures Injective(m[t := e]) && Held(m[t := e]) == Held(m) + {Key(e.tunnel)} && |m[t := e]| == |m| + 1
  {
    HeldInsert(m, t, e);
    MapInsert(m, t, e);
  }

  lemma DeleteInjective(m: map<nat, Entry>, t: nat)
    requires t in m && Injective(m)
    ensures Injective(m - {t}) && Held(m - {t}) == Held(m) - {Key(m[t].tunnel)} && |m - {t}| == |m| - 1
    ensures Key(m[t].tunnel) in Held(m)
  {
    HeldDelete(m, t);
    MapDelete(m, t);
  }

  lemma InjectiveMeansDistinct(m: map<nat, Entry>, t: nat, u: nat)
    requires Injective(m) && t in m && u in m && t != u
    ensures Key(m[t].tunnel) != Key(m[u].tunnel)
  {
    HeldDelete(m, t);
    assert u in m - {t} && Key((m - {t})[u].tunnel) in Held(m - {t});
  }

  // How one id goes from place to place.

  lemma Shrink(queue: set<string>, inUse: set<string>, probing: set<string>, recycling: set<string>, x: set<string>)
    requires Apart(queue, inUse, probing, recycling)
    ensures Apart(queue - x, inUse, probing, recycling) && Apart(queue - x, inUse - x, probing, recycling)
    ensures Apart(queue, inUse, probing - x, recycling) && Apart(queue, inUse, probing, recycling - x)
  {
  }

  lemma IntoQueue(queue: set<string>, inUse: set<string>, probing: set<string>, recycling: set<string>, key: string)
    requires Apart(queue, inUse, probing, recycling) && key != ""
    requires key !in inUse && key !in probing && key !in recycling
    ensures Apart(queue + {key}, inUse, probing, recycling)
  {
  }

  lemma QueueToProbing(queue: set<string>, inUse: set<string>, probing: set<string>, recycling: set<string>,
                       key: string)
    requires Apart(queue, inUse, probing, recycling) && key in queue
    ensures Apart(queue - {key}, inUse, probing + {key}, recycling) && key !in probing
  {
  }

  lemma ProbingToQueue(queue: set<string>, inUse: set<string>, probing: set<string>, recycling: set<string>,
                       key: string)
    requires Apart(queue, inUse, probing, recycling) && key in probing
    ensures Apart(queue + {key}, inUse, probing - {key}, recycling) && key !in queue && key != ""
  {
  }

  lemma ProbingToUse(queue: set<string>, inUse: set<string>, probing: set<string>, recycling: set<string>, key: string,
                     raw: string)
    requires Apart(queue, inUse, probing, recycling) && key in probing
    ensures Apart(queue, inUse + {raw}, probing - {key}, recycling)
            <==> raw !in queue && raw !in probing - {key} && raw !in recycling
  {
    assert raw in inUse + {raw};
  }

  lemma UseToRecycling(queue: set<string>, inUse: set<string>, probing: set<string>, recycling: set<string>,
                       key: string)
    requires Apart(queue, inUse, probing, recycling) && key in inUse && key != ""
    ensures Apart(queue, inUse - {key}, probing, recycling + {key}) && key !in recycling
  {
  }

  lemma RecyclingToQueue(queue: set<string>, inUse: set<string>, probing: set<string>, recycling: set<string>,
                         key: string)
    requires Apart(queue, inUse, probing, recycling) && key in recycling
    ensures Apart(queue + {key}, inUse, probing, recycling - {key}) && key !in queue
  {
  }

  /** What PutIdle does to the keys of the queue. */
  lemma PutKeys(maxIdle: nat, pool: Pool, tunnel: Tunnel, state: TunnelState, now: Time)
    requires DistinctKeys(pool.queue)
    ensures var put := PutIdleSpec(maxIdle, pool, tunnel, state, now);
            && DistinctKeys(put.0.queue) && put.0.inUse == pool.inUse
            && QueueKeys(put.0.queue) == (if put.1 == None then QueueKeys(pool.queue) + {Key(tunnel)}
                                          else QueueKeys(pool.queue))
            && |put.0.queue| == |pool.queue| + (if put.1 == None && Key(tunnel) !in QueueKeys(pool.queue) then 1 else 0)
            && (put.1 == None ==> Key(tunnel) !in pool.inUse && Key(tunnel) != "")
            && put.0.closed == pool.closed && put.0.recycled == pool.recycled && (put.1.Some? ==> put.0 == pool)
  {
    SnocKeys(pool.queue, Entry(tunnel, now));
    ReplaceKeys(pool.queue, Entry(tunnel, now));
  }

  lemma PushKeys(pool: Pool, entry: Entry, now: Time)
    requires DistinctKeys(pool.queue) && Key(entry.tunnel) !in QueueKeys(pool.queue) && Key(entry.tunnel) != ""
    ensures var push := PushSpec(pool, entry, now);
            && DistinctKeys(push.queue) && QueueKeys(push.queue) == QueueKeys(pool.queue) + {Key(entry.tunnel)}
            && |push.queue| == |pool.queue| + 1 && push.inUse == pool.inUse && push.closed == pool.closed
            && push.recycled == pool.recycled
  {
    SnocKeys(pool.queue, Entry(entry.tunnel, if entry.insertedAt == 0 then now else entry.insertedAt));
  }

  lemma {:induction false} KeepCount(queue: seq<Entry>, drop: set<string>)
    requires DistinctKeys(queue) && drop <= QueueKeys(queue)
    ensures |Keep(queue, drop)| + |drop| == |queue|
  {
    if queue == [] {
      assert drop == {};
    } else {
      var head, tail := Key(queue[0].tunnel), queue[1..];
      KeepDependsOn(tail, drop, drop - {head});
      KeepCount(tail, drop - {head});
      if head !in drop {
        assert drop - {head} == drop;
      }
    }
  }

  // ---------------------------------------------------------------------------------------------
  // Conservation
  // ---------------------------------------------------------------------------------------------

  /** Where the tunnels that came in are now: in the pool, in flight, or gone. */
  function Accounted(s: State): nat {
    Idle(s) + |s.pool.inUse| + |s.probing| + |s.recycling| + s.closing + s.pool.closed + s.removed
  }

  predicate Balanced(s: State) {
    s.inserted == Accounted(s) && s.returned == s.pool.recycled + s.crediting
  }

  predicate Sound(s: State) {
    OnePlacePerID(s) && Balanced(s)
  }

  /** `next` is the pool with one tunnel more, or another tunnel, under `key`. */
  predicate HasOneMore(pool: Pool, next: Pool, key: string) {
    && DistinctKeys(next.queue) && next.inUse == pool.inUse && next.closed == pool.closed
    && next.recycled == pool.recycled
    && QueueKeys(next.queue) == QueueKeys(pool.queue) + {key} && key != "" && key !in pool.inUse
    && |next.queue| == |pool.queue| + if key in QueueKeys(pool.queue) then 0 else 1
  }

  lemma StoredBalanced(s: State, next: Pool, key: string)
    requires Balanced(s) && HasOneMore(s.pool, next, key)
    ensures Balanced(s.(pool := next, inserted := s.inserted + if key in QueueKeys(s.pool.queue) then 0 else 1))
  {
  }

  lemma StoredSound(s: State, next: Pool, key: string)
    ensures Sound(s) && HasOneMore(s.pool, next, key) && key !in Held(s.probing) && key !in Held(s.recycling) ==>
              Sound(s.(pool := next, inserted := s.inserted + if key in QueueKeys(s.pool.queue) then 0 else 1))
  {
    if Sound(s) && HasOneMore(s.pool, next, key) && key !in Held(s.probing) && key !in Held(s.recycling) {
      assert Apart(QueueKeys(next.queue), next.inUse.Keys, Held(s.probing), Held(s.recycling)) by {
        IntoQueue(QueueKeys(s.pool.queue), s.pool.inUse.Keys, Held(s.probing), Held(s.recycling), key);
      }
      StoredBalanced(s, next, key);
    }
  }

  lemma PutSound(maxIdle: nat, s: State, tunnel: Tunnel, state: TunnelState, now: Time)
    requires Sound(s) && !PutClashes(maxIdle, s, tunnel, state, now)
    ensures Sound(PutStep(maxIdle, s, tunnel, state, now))
  {
    var put, key := PutIdleSpec(maxIdle, s.pool, tunnel, state, now), Key(tunnel);
    if put.1.Some? {
      PutIsNamed(maxIdle, s.pool, tunnel, state, now);
      assert PutStep(maxIdle, s, tunnel, state, now) == s;
    } else {
      assert PutStep(maxIdle, s, tunnel, state, now)
          == s.(pool := put.0, inserted := s.inserted + if key in QueueKeys(s.pool.queue) then 0 else 1);
      PutStoresOne(maxIdle, s.pool, tunnel, state, now);
      StoredSound(s, put.0, key);
    }
  }

  lemma PopKeys(queue: seq<Entry>, inUse: set<string>, probing: set<string>, recycling: set<string>)
    requires queue != [] && DistinctKeys(queue) && Apart(QueueKeys(queue), inUse, probing, recycling)
    ensures var key := Key(queue[0].tunnel);
            && key !in probing && DistinctKeys(queue[1..])
            && Apart(QueueKeys(queue[1..]), inUse, probing + {key}, recycling)
  {
    var key := Key(queue[0].tunnel);
    QueueToProbing(QueueKeys(queue), inUse, probing, recycling, key);
    assert QueueKeys(queue) - {key} == QueueKeys(queue[1..]);
  }

  lemma PopTakes(s: State, thread: nat)
    requires Sound(s) && Free(s, thread) && s.pool.queue != []
    ensures Sound(PopStep(s, thread))
  {
    PopKeys(s.pool.queue, s.pool.inUse.Keys, Held(s.probing), Held(s.recycling));
    InsertInjective(s.probing, thread, s.pool.queue[0]);
  }

  lemma PopSound(s: State, thread: nat)
    requires Sound(s)
    ensures Sound(PopStep(s, thread))
  {
    if Free(s, thread) && s.pool.queue != [] {
      PopTakes(s, thread);
    }
  }

  lemma DiscardSound(s: State, thread: nat)
    requires Sound(s) && thread in s.probing
    ensures Sound(s.(probing := s.probing - {thread}, closing := s.closing + 1))
  {
    DeleteInjective(s.probing, thread);
    Shrink(QueueKeys(s.pool.queue), s.pool.inUse.Keys, Held(s.probing), Held(s.recycling),
           {Key(s.probing[thread].tunnel)});
  }

  lemma PushBackSound(s: State, thread: nat, now: Time)
    requires Sound(s)
    ensures Sound(PushBackStep(s, thread, now))
  {
    if thread in s.probing {
      var key := Key(s.probing[thread].tunnel);
      DeleteInjective(s.probing, thread);
      ProbingToQueue(QueueKeys(s.pool.queue), s.pool.inUse.Keys, Held(s.probing), Held(s.recycling), key);
      PushKeys(s.pool, s.probing[thread], now);
    }
  }

  /** Handing out a tunnel keeps ids apart exactly if its reported id is not that of another tunnel. */
  lemma CommitPlaces(s: State, thread: nat)
    requires OnePlacePerID(s)
    ensures OnePlacePerID(CommitStep(s, thread)) <==> !CommitClashes(s, thread)
  {
    if thread in s.probing {
      var key, raw := Key(s.probing[thread].tunnel), s.probing[thread].tunnel.id.raw;
      DeleteInjective(s.probing, thread);
      ProbingToUse(QueueKeys(s.pool.queue), s.pool.inUse.Keys, Held(s.probing), Held(s.recycling), key, raw);
      CommitKeys(s, thread);
    }
  }

  lemma CommitKeys(s: State, thread: nat)
    requires thread in s.probing
    ensures var next := CommitStep(s, thread);
            && next.pool.queue == s.pool.queue && next.probing == s.probing - {thread}
            && next.recycling == s.recycling
            && next.pool.inUse.Keys == s.pool.inUse.Keys + {s.probing[thread].tunnel.id.raw}
  {
  }

  lemma CommitBalanced(s: State, thread: nat)
    requires Balanced(s) && DistinctKeys(s.pool.queue)
    ensures Balanced(CommitStep(s, thread)) <==> !CommitLoses(s, thread)
  {
    CommitDeficit(s, thread);
  }

  lemma CommitSound(s: State, thread: nat)
    requires Sound(s)
    ensures Sound(CommitStep(s, thread)) <==> !CommitClashes(s, thread) && !CommitLoses(s, thread)
  {
    CommitPlaces(s, thread);
    CommitBalanced(s, thread);
  }

  /** A successful Remove takes out one tunnel, if none is both idle and in use. */
  lemma RemoveKeys(pool: Pool, key: string)
    requires DistinctKeys(pool.queue) && (key in QueueKeys(pool.queue) <==> key !in pool.inUse)
    ensures LacksOne(pool, pool.(queue := Keep(pool.queue, {key}), inUse := pool.inUse - {key}), key)
  {
    KeepKeys(pool.queue, {key});
    MapDelete(pool.inUse, key);
    if key in QueueKeys(pool.queue) {
      KeepOneLess(pool.queue, key);
    } else {
      KeepNothing(pool.queue, {key});
    }
  }

  /** `rest` is the pool without the tunnel of `key`. */
  predicate LacksOne(pool: Pool, rest: Pool, key: string) {
    && DistinctKeys(rest.queue) && rest.closed == pool.closed && rest.recycled == pool.recycled
    && |pool.queue| + |pool.inUse| == |rest.queue| + |rest.inUse| + 1
    && QueueKeys(rest.queue) == QueueKeys(pool.queue) - {key} && rest.inUse.Keys == pool.inUse.Keys - {key}
  }

  lemma RemovedSound(s: State, rest: Pool, key: string)
    ensures Sound(s) && LacksOne(s.pool, rest, key) ==> Sound(s.(pool := rest, removed := s.removed + 1))
  {
    if Sound(s) && LacksOne(s.pool, rest, key) {
      Shrink(QueueKeys(s.pool.queue), s.pool.inUse.Keys, Held(s.probing), Held(s.recycling), {key});
    }
  }

  lemma NotInTwoPlaces(s: State, key: string)
    requires OnePlacePerID(s)
    ensures !(key in QueueKeys(s.pool.queue) && key in s.pool.inUse)
  {
  }

  lemma RemoveNothing(s: State, id: ID)
    requires id.trimmed == "" || (id.trimmed !in QueueKeys(s.pool.queue) && id.trimmed !in s.pool.inUse)
    ensures RemoveStep(s, id) == s
  {
  }

  lemma RemoveSomething(s: State, id: ID)
    requires Sound(s) && id.trimmed != ""
    requires id.trimmed in QueueKeys(s.pool.queue) || id.trimmed in s.pool.inUse
    ensures Sound(RemoveStep(s, id))
  {
    var key := id.trimmed;
    var rest := s.pool.(queue := Keep(s.pool.queue, {key}), inUse := s.pool.inUse - {key});
    RemoveTakes(s, id);
    assert LacksOne(s.pool, rest, key) by {
      NotInTwoPlaces(s, key);
      RemoveKeys(s.pool, key);
    }
    RemovedSound(s, rest, key);
  }

  lemma RemoveSound(s: State, id: ID)
    requires Sound(s)
    ensures Sound(RemoveStep(s, id))
  {
    if id.trimmed == "" || (id.trimmed !in QueueKeys(s.pool.queue) && id.trimmed !in s.pool.inUse) {
      RemoveNothing(s, id);
    } else {
      RemoveSomething(s, id);
    }
  }

  lemma StartRecycleSound(s: State, thread: nat, tunnel: Tunnel)
    requires Sound(s)
    ensures Sound(StartRecycleStep(s, thread, tunnel))
  {
    var key := Key(tunnel);
    if Free(s, thread) && key != "" && key in s.pool.inUse {
      UseToRecycling(QueueKeys(s.pool.queue), s.pool.inUse.Keys, Held(s.probing), Held(s.recycling), key);
      InsertInjective(s.recycling, thread, Entry(tunnel, 0));
      MapDelete(s.pool.inUse, key);
    }
  }

  lemma AbortRecycleSound(s: State, thread: nat)
    requires Sound(s) && thread in s.recycling
    ensures Sound(s.(recycling := s.recycling - {thread}, closing := s.closing + 1))
  {
    DeleteInjective(s.recycling, thread);
    Shrink(QueueKeys(s.pool.queue), s.pool.inUse.Keys, Held(s.probing), Held(s.recycling),
           {Key(s.recycling[thread].tunnel)});
  }

  /** A tunnel under recycling is stored. */
  lemma ReturnedSound(s: State, next: Pool, thread: nat)
    ensures Sound(s) && thread in s.recycling && HasOneMore(s.pool, next, Key(s.recycling[thread].tunnel)) ==>
              Sound(s.(pool := next, recycling := s.recycling - {thread}, crediting := s.crediting + 1,
                       returned := s.returned + 1))
  {
    if Sound(s) && thread in s.recycling && HasOneMore(s.pool, next, Key(s.recycling[thread].tunnel)) {
      var key := Key(s.recycling[thread].tunnel);
      DeleteInjective(s.recycling, thread);
      RecyclingToQueue(QueueKeys(s.pool.queue), s.pool.inUse.Keys, Held(s.probing), Held(s.recycling), key);
    }
  }

  lemma PutStoresOne(maxIdle: nat, pool: Pool, tunnel: Tunnel, state: TunnelState, now: Time)
    requires DistinctKeys(pool.queue)
    ensures var put := PutIdleSpec(maxIdle, pool, tunnel, state, now);
            put.1 == None ==> HasOneMore(pool, put.0, Key(tunnel))
  {
    PutKeys(maxIdle, pool, tunnel, state, now);
  }

  lemma RecycledSound(s: State, thread: nat, put: (Pool, Option<PoolError>))
    requires Sound(s) && thread in s.recycling
    requires put.1 == None ==> HasOneMore(s.pool, put.0, Key(s.recycling[thread].tunnel))
    ensures Sound(Recycled(s, thread, put))
  {
    if put.1 == None {
      ReturnedSound(s, put.0, thread);
    } else {
      AbortRecycleSound(s, thread);
    }
  }

  lemma PutRecycledSound(maxIdle: nat, s: State, thread: nat, state: TunnelState, now: Time)
    requires Sound(s)
    ensures Sound(PutRecycledStep(maxIdle, s, thread, state, now))
  {
    if thread in s.recycling {
      PutStoresOne(maxIdle, s.pool, s.recycling[thread].tunnel, state, now);
      RecycledSound(s, thread, PutIdleSpec(maxIdle, s.pool, s.recycling[thread].tunnel, state, now));
    }
  }

  lemma EvictSound(s: State, drop: set<string>)
    ensures Sound(s) && drop <= QueueKeys(s.pool.queue) ==> Sound(EvictStep(s, drop))
  {
    if Sound(s) && drop <= QueueKeys(s.pool.queue) {
      KeepKeys(s.pool.queue, drop);
      KeepCount(s.pool.queue, drop);
      Shrink(QueueKeys(s.pool.queue), s.pool.inUse.Keys, Held(s.probing), Held(s.recycling), drop);
    }
  }

  lemma AcquireStepSound(maxIdle: nat, s: State, e: Event)
    requires Sound(s) && Allowed(maxIdle, s, e) && (e.Pop? || e.Discard? || e.PushBack? || e.Commit?)
    ensures Sound(Step(maxIdle, s, e))
  {
    match e
    case Pop(thread) => PopSound(s, thread);
    case Discard(thread) => if thread in s.probing { DiscardSound(s, thread); }
    case PushBack(thread, now) => PushBackSound(s, thread, now);
    case Commit(thread) => CommitSound(s, thread);
  }

  lemma RecycleStepSound(maxIdle: nat, s: State, e: Event)
    requires Sound(s) && (e.StartRecycle? || e.AbortRecycle? || e.PutRecycled?)
    ensures Sound(Step(maxIdle, s, e))
  {
    match e
    case StartRecycle(thread, tunnel) => StartRecycleSound(s, thread, tunnel);
    case AbortRecycle(thread) => if thread in s.recycling { AbortRecycleSound(s, thread); }
    case PutRecycled(thread, state, now) => PutRecycledSound(maxIdle, s, thread, state, now);
  }

  lemma CounterStepSound(maxIdle: nat, s: State, e: Event)
    requires Sound(s) && (e.FinishClose? || e.Credit?)
    ensures Sound(Step(maxIdle, s, e))
  {
  }

  lemma EvictStepSound(maxIdle: nat, s: State, e: Event)
    requires Sound(s) && (e.EvictExpired? || e.EvictSeen?)
    ensures Sound(Step(maxIdle, s, e))
  {
    match e
    case EvictExpired(now, ttl) =>
      ExpiredAreQueued(s.pool.queue, now, ttl);
      EvictSound(s, ExpiredKeys(s.pool.queue, now, ttl));
    case EvictSeen(candidates) =>
      CandidatesAreQueued(s.pool.queue, candidates);
      EvictSound(s, CandidateKeys(s.pool.queue, candidates));
  }

  lemma StepSound(maxIdle: nat, s: State, e: Event)
    requires Sound(s) && Allowed(maxIdle, s, e)
    ensures Sound(Step(maxIdle, s, e))
  {
    if e.Put? {
      PutSound(maxIdle, s, e.tunnel, e.state, e.now);
    } else if e.Remove? {
      RemoveSound(s, e.id);
    } else if e.Pop? || e.Discard? || e.PushBack? || e.Commit? {
      AcquireStepSound(maxIdle, s, e);
    } else if e.StartRecycle? || e.AbortRecycle? || e.PutRecycled? {
      RecycleStepSound(maxIdle, s, e);
    } else if e.FinishClose? || e.Credit? {
      CounterStepSound(maxIdle, s, e);
    } else if e.EvictExpired? || e.EvictSeen? {
      EvictStepSound(maxIdle, s, e);
    }
  }

  /** What comes of the ids does not depend on the books. */
  lemma BooksDoNotMatter(maxIdle: nat, s: State, e: Event, inserted: nat, returned: nat)
    ensures var next := Step(maxIdle, s, e);
            var next' := Step(maxIdle, s.(inserted := inserted, returned := returned), e);
            next'.(inserted := next.inserted, returned := next.returned) == next
  {
    var s' := s.(inserted := inserted, returned := returned);
    match e
    case Put(tunnel, state, now) =>
    case Pop(thread) => assert Free(s', thread) == Free(s, thread);
    case PutRecycled(thread, state, now) => PutRecycledBooks(maxIdle, s, thread, state, now, s');
    case Remove(id) =>
    case StartRecycle(thread, tunnel) => assert Free(s', thread) == Free(s, thread);
    case EvictExpired(now, ttl) =>
    case EvictSeen(candidates) =>
    case _ =>
  }

  lemma PutRecycledBooks(maxIdle: nat, s: State, thread: nat, state: TunnelState, now: Time, s': State)
    requires s'.(inserted := s.inserted, returned := s.returned) == s
    ensures var next := PutRecycledStep(maxIdle, s, thread, state, now);
            var next' := PutRecycledStep(maxIdle, s', thread, state, now);
            next'.(inserted := next.inserted, returned := next.returned) == next
  {
  }

  lemma SamePlaces(s: State, s': State)
    requires s'.(inserted := s.inserted, returned := s.returned) == s
    ensures OnePlacePerID(s) == OnePlacePerID(s')
  {
  }

  lemma OtherStepsKeepPlaces(maxIdle: nat, s: State, e: Event)
    requires OnePlacePerID(s) && !e.Commit? && !Clashes(maxIdle, s, e)
    ensures OnePlacePerID(Step(maxIdle, s, e))
  {
    var inserted, returned := Accounted(s), s.pool.recycled + s.crediting;
    var s' := s.(inserted := inserted, returned := returned);
    SamePlaces(s, s');
    StepSound(maxIdle, s', e);
    BooksDoNotMatter(maxIdle, s, e, inserted, returned);
    SamePlaces(Step(maxIdle, s, e), Step(maxIdle, s', e));
  }

  /** A step puts an id in two places exactly if it clashes. */
  lemma OnePlaceStep(maxIdle: nat, s: State, e: Event)
    requires OnePlacePerID(s)
    ensures OnePlacePerID(Step(maxIdle, s, e)) <==> !Clashes(maxIdle, s, e)
  {
    if e.Commit? {
      CommitPlaces(s, e.thread);
    } else if Clashes(maxIdle, s, e) {
      SharedIDsClash(maxIdle, s, e.tunnel, e.state, e.now);
    } else {
      OtherStepsKeepPlaces(maxIdle, s, e);
    }
  }

  lemma OverwriteUnbalances(maxIdle: nat, s: State, e: Event)
    requires Sound(s) && Overwrites(s, e)
    ensures !Balanced(Step(maxIdle, s, e))
  {
    CommitBalanced(s, e.thread);
  }

  /** Ids stay apart and the books balanced exactly if the step neither clashes nor forgets a tunnel in use. */
  lemma SoundStep(maxIdle: nat, s: State, e: Event)
    requires Sound(s)
    ensures Sound(Step(maxIdle, s, e)) <==> Allowed(maxIdle, s, e)
  {
    if Allowed(maxIdle, s, e) {
      StepSound(maxIdle, s, e);
    } else if Clashes(maxIdle, s, e) {
      OnePlaceStep(maxIdle, s, e);
    } else {
      OverwriteUnbalances(maxIdle, s, e);
    }
  }

  lemma StartSound()
    ensures Sound(START)
  {
  }

  lemma StepsKeepPlaces(maxIdle: nat)
    ensures KeepsUnless(Stepping(maxIdle), OnePlacePerID, Clashing(maxIdle))
  {
    forall s, e | OnePlacePerID(s)
      ensures OnePlacePerID(Stepping(maxIdle)(s, e)) <==> !Clashing(maxIdle)(s, e)
    {
      OnePlaceStep(maxIdle, s, e);
    }
  }

  lemma StepsKeepSound(maxIdle: nat)
    ensures KeepsUnless(Stepping(maxIdle), Sound, Refusing(maxIdle))
  {
    forall s, e | Sound(s)
      ensures Sound(Stepping(maxIdle)(s, e)) <==> !Refusing(maxIdle)(s, e)
    {
      SoundStep(maxIdle, s, e);
    }
  }

  /**
   Pool safety, exactly: throughout a run no id is in two places if and only if no tunnel is put in under the id of one
   in flight, and none is handed out reporting the id of another one.
   */
  lemma OnePlaceExactly(maxIdle: nat, events: seq<Event>, n: nat)
    requires n <= |events|
    ensures HoldsThroughout(Stepping(maxIdle), START, events, OnePlacePerID, n)
            <==> NeverBroken(Stepping(maxIdle), START, events, Clashing(maxIdle), n)
  {
    StartSound();
    StepsKeepPlaces(maxIdle);
    UnlessBroken(Stepping(maxIdle), START, events, OnePlacePerID, Clashing(maxIdle), n);
  }

  /** The same with the books: they balance, too, if and only if none is handed out under an id in use, either. */
  lemma SoundExactly(maxIdle: nat, events: seq<Event>, n: nat)
    requires n <= |events|
    ensures HoldsThroughout(Stepping(maxIdle), START, events, Sound, n)
            <==> NeverBroken(Stepping(maxIdle), START, events, Refusing(maxIdle), n)
  {
    StartSound();
    StepsKeepSound(maxIdle);
    UnlessBroken(Stepping(maxIdle), START, events, Sound, Refusing(maxIdle), n);
  }

  /** What one place per id means: all places are disjoint, and no two threads hold tunnels with the same id. */
  lemma PlacesAreDisjoint(s: State)
    requires OnePlacePerID(s)
    ensures QueueKeys(s.pool.queue) !! s.pool.inUse.Keys !! Held(s.probing) !! Held(s.recycling)
    ensures forall t, u :: t in s.probing && u in s.probing && t != u ==>
              Key(s.probing[t].tunnel) != Key(s.probing[u].tunnel)
    ensures forall t, u :: t in s.recycling && u in s.recycling && t != u ==>
              Key(s.recycling[t].tunnel) != Key(s.recycling[u].tunnel)
  {
    forall t, u | t in s.probing && u in s.probing && t != u
      ensures Key(s.probing[t].tunnel) != Key(s.probing[u].tunnel)
    {
      InjectiveMeansDistinct(s.probing, t, u);
    }
    forall t, u | t in s.recycling && u in s.recycling && t != u
      ensures Key(s.recycling[t].tunnel) != Key(s.recycling[u].tunnel)
    {
      InjectiveMeansDistinct(s.recycling, t, u);
    }
  }

  /**
   Pool safety: in every state reached without a clash no id is in two places, and no two threads hold tunnels with the
   same id.
   */
  lemma NoSharedTunnels(maxIdle: nat, events: seq<Event>, k: nat)
    requires k <= |events| && NeverBroken(Stepping(maxIdle), START, events, Clashing(maxIdle), k)
    ensures var s := After(maxIdle, events, k);
            && QueueKeys(s.pool.queue) !! s.pool.inUse.Keys !! Held(s.probing) !! Held(s.recycling)
            && (forall t, u :: t in s.probing && u in s.probing && t != u ==>
                  Key(s.probing[t].tunnel) != Key(s.probing[u].tunnel))
            && (forall t, u :: t in s.recycling && u in s.recycling && t != u ==>
                  Key(s.recycling[t].tunnel) != Key(s.recycling[u].tunnel))
  {
    OnePlaceExactly(maxIdle, events, k);
    assert HoldsAt(Stepping(maxIdle), START, events, OnePlacePerID, k);
    PlacesAreDisjoint(After(maxIdle, events, k));
  }

  /**
   Conservation: what was freshly inserted is idle, in use, in flight, removed, or counted as closed; and recycledCount
   counts the returns from use, but for those whose step to the counter is still due.
   */
  lemma NothingIsLost(maxIdle: nat, events: seq<Event>, k: nat)
    requires k <= |events| && NeverBroken(Stepping(maxIdle), START, events, Refusing(maxIdle), k)
    ensures var s := After(maxIdle, events, k);
            && s.inserted == Idle(s) + |s.pool.inUse| + (|s.probing| + |s.recycling| + s.closing)
                             + s.removed + s.pool.closed
            && s.returned == s.pool.recycled + s.crediting
  {
    SoundExactly(maxIdle, events, k);
    assert HoldsAt(Stepping(maxIdle), START, events, Sound, k);
  }

  /**
   The condition on ids is exact for each accepted PutIdle: an id that is in flight ends up in two places, and any other
   does not.
   */
  lemma SharedIDsClash(maxIdle: nat, s: State, tunnel: Tunnel, state: TunnelState, now: Time)
    ensures OnePlacePerID(s) && PutIdleSpec(maxIdle, s.pool, tunnel, state, now).1 == None ==>
              (OnePlacePerID(PutStep(maxIdle, s, tunnel, state, now))
               <==> Key(tunnel) !in Held(s.probing) && Key(tunnel) !in Held(s.recycling))
  {
    if OnePlacePerID(s) && PutIdleSpec(maxIdle, s.pool, tunnel, state, now).1 == None {
      PutKeys(maxIdle, s.pool, tunnel, state, now);
      var queue, inUse := QueueKeys(s.pool.queue), s.pool.inUse.Keys;
      var probing, recycling := Held(s.probing), Held(s.recycling);
      if Key(tunnel) !in probing && Key(tunnel) !in recycling {
        IntoQueue(queue, inUse, probing, recycling, Key(tunnel));
      } else {
        assert !Apart(queue + {Key(tunnel)}, inUse, probing, recycling);
      }
    }
  }

  // ---------------------------------------------------------------------------------------------
  // Conservation without the condition on ids
  // ---------------------------------------------------------------------------------------------

  // The steps that drop a tunnel without closing or counting it, or take two out as one.

  predicate PushLoses(s: State, thread: nat) {
    && thread in s.probing
    && (Key(s.probing[thread].tunnel) == "" || Key(s.probing[thread].tunnel) in QueueKeys(s.pool.queue))
  }

  predicate CommitLoses(s: State, thread: nat) {
    thread in s.probing && s.probing[thread].tunnel.id.raw in s.pool.inUse
  }

  predicate RemoveLoses(s: State, id: ID) {
    id.trimmed != "" && id.trimmed in QueueKeys(s.pool.queue) && id.trimmed in s.pool.inUse
  }

  predicate RecycleLoses(maxIdle: nat, s: State, thread: nat, state: TunnelState, now: Time) {
    && thread in s.recycling && Key(s.recycling[thread].tunnel) in QueueKeys(s.pool.queue)
    && PutIdleSpec(maxIdle, s.pool, s.recycling[thread].tunnel, state, now).1 == None
  }

  /** How many tunnels a step loses. */
  function Lost(maxIdle: nat, s: State, e: Event): int {
    match e
    case PushBack(thread, _) => if PushLoses(s, thread) then 1 else 0
    case Commit(thread) => if CommitLoses(s, thread) then 1 else 0
    case Remove(id) => if RemoveLoses(s, id) then 1 else 0
    case PutRecycled(thread, state, now) => if RecycleLoses(maxIdle, s, thread, state, now) then 1 else 0
    case _ => 0
  }

  /** What came in and is in none of the books. */
  function Deficit(s: State): int {
    s.inserted - Accounted(s)
  }

  predicate Ordered(s: State) {
    DistinctKeys(s.pool.queue)
  }

  lemma PutDeficit(maxIdle: nat, s: State, tunnel: Tunnel, state: TunnelState, now: Time)
    requires Ordered(s)
    ensures var next := PutStep(maxIdle, s, tunnel, state, now); Ordered(next) && Deficit(next) == Deficit(s)
  {
    PutKeys(maxIdle, s.pool, tunnel, state, now);
  }

  lemma PopDeficit(s: State, thread: nat)
    requires Ordered(s)
    ensures Ordered(PopStep(s, thread)) && Deficit(PopStep(s, thread)) == Deficit(s)
  {
    if Free(s, thread) && s.pool.queue != [] {
      MapInsert(s.probing, thread, s.pool.queue[0]);
    }
  }

  lemma PushBackDeficit(s: State, thread: nat, now: Time)
    requires Ordered(s)
    ensures var next := PushBackStep(s, thread, now);
            Ordered(next) && Deficit(next) == Deficit(s) + if PushLoses(s, thread) then 1 else 0
  {
    MapDelete(s.probing, thread);
    if thread in s.probing && !PushLoses(s, thread) {
      PushKeys(s.pool, s.probing[thread], now);
    }
  }

  lemma CommitDeficit(s: State, thread: nat)
    requires Ordered(s)
    ensures var next := CommitStep(s, thread);
            Ordered(next) && Deficit(next) == Deficit(s) + if CommitLoses(s, thread) then 1 else 0
  {
    MapDelete(s.probing, thread);
    if thread in s.probing {
      var tunnel := s.probing[thread].tunnel;
      if tunnel.id.raw in s.pool.inUse {
        assert s.pool.inUse[tunnel.id.raw := tunnel].Keys == s.pool.inUse.Keys;
        assert |s.pool.inUse[tunnel.id.raw := tunnel]| == |s.pool.inUse[tunnel.id.raw := tunnel].Keys|;
        assert |s.pool.inUse| == |s.pool.inUse.Keys|;
      } else {
        MapInsert(s.pool.inUse, tunnel.id.raw, tunnel);
      }
    }
  }

  /** Removing an id takes one tunnel out, or both if it is in two places. */
  lemma RemovedCount(pool: Pool, key: string)
    requires DistinctKeys(pool.queue)
    ensures |pool.queue| + |pool.inUse| == |Keep(pool.queue, {key})| + |pool.inUse - {key}|
         + (if key in QueueKeys(pool.queue) then 1 else 0) + (if key in pool.inUse then 1 else 0)
    ensures DistinctKeys(Keep(pool.queue, {key}))
  {
    KeepKeys(pool.queue, {key});
    MapDelete(pool.inUse, key);
    if key in QueueKeys(pool.queue) {
      KeepOneLess(pool.queue, key);
    } else {
      KeepNothing(pool.queue, {key});
    }
  }

  lemma RemoveTakes(s: State, id: ID)
    requires id.trimmed != "" && (id.trimmed in QueueKeys(s.pool.queue) || id.trimmed in s.pool.inUse)
    ensures RemoveStep(s, id)
         == s.(pool := s.pool.(queue := Keep(s.pool.queue, {id.trimmed}), inUse := s.pool.inUse - {id.trimmed}),
               removed := s.removed + 1)
  {
  }

  lemma RemoveDeficit(s: State, id: ID)
    requires Ordered(s)
    ensures var next := RemoveStep(s, id);
            Ordered(next) && Deficit(next) == Deficit(s) + if RemoveLoses(s, id) then 1 else 0
  {
    if id.trimmed == "" || (id.trimmed !in QueueKeys(s.pool.queue) && id.trimmed !in s.pool.inUse) {
      RemoveNothing(s, id);
    } else {
      RemoveTakes(s, id);
      RemovedCount(s.pool, id.trimmed);
    }
  }

  lemma StartRecycleDeficit(s: State, thread: nat, tunnel: Tunnel)
    requires Ordered(s)
    ensures var next := StartRecycleStep(s, thread, tunnel); Ordered(next) && Deficit(next) == Deficit(s)
  {
    if Free(s, thread) && Key(tunnel) in s.pool.inUse {
      MapInsert(s.recycling, thread, Entry(tunnel, 0));
      MapDelete(s.pool.inUse, Key(tunnel));
    }
  }

  lemma PutRecycledDeficit(maxIdle: nat, s: State, thread: nat, state: TunnelState, now: Time)
    requires Ordered(s)
    ensures var next := PutRecycledStep(maxIdle, s, thread, state, now);
            Ordered(next) && Deficit(next) == Deficit(s) + if RecycleLoses(maxIdle, s, thread, state, now) then 1 else 0
  {
    if thread in s.recycling {
      MapDelete(s.recycling, thread);
      PutKeys(maxIdle, s.pool, s.recycling[thread].tunnel, state, now);
    }
  }

  lemma EvictDeficit(s: State, drop: set<string>)
    requires Ordered(s) && drop <= QueueKeys(s.pool.queue)
    ensures Ordered(EvictStep(s, drop)) && Deficit(EvictStep(s, drop)) == Deficit(s)
  {
    KeepKeys(s.pool.queue, drop);
    KeepCount(s.pool.queue, drop);
  }

  lemma AcquireDeficit(maxIdle: nat, s: State, e: Event)
    requires Ordered(s) && (e.Pop? || e.Discard? || e.PushBack? || e.Commit?)
    ensures var next := Step(maxIdle, s, e); Ordered(next) && Deficit(next) == Deficit(s) + Lost(maxIdle, s, e)
  {
    match e
    case Pop(thread) => PopDeficit(s, thread);
    case Discard(thread) => MapDelete(s.probing, thread);
    case PushBack(thread, now) => PushBackDeficit(s, thread, now);
    case Commit(thread) => CommitDeficit(s, thread);
  }

  lemma RecycleDeficit(maxIdle: nat, s: State, e: Event)
    requires Ordered(s) && (e.StartRecycle? || e.AbortRecycle? || e.PutRecycled?)
    ensures var next := Step(maxIdle, s, e); Ordered(next) && Deficit(next) == Deficit(s) + Lost(maxIdle, s, e)
  {
    match e
    case StartRecycle(thread, tunnel) => StartRecycleDeficit(s, thread, tunnel);
    case AbortRecycle(thread) => MapDelete(s.recycling, thread);
    case PutRecycled(thread, state, now) => PutRecycledDeficit(maxIdle, s, thread, state, now);
  }

  lemma StepDeficit(maxIdle: nat, s: State, e: Event)
    requires Ordered(s)
    ensures var next := Step(maxIdle, s, e); Ordered(next) && Deficit(next) == Deficit(s) + Lost(maxIdle, s, e)
  {
    if e.Pop? || e.Discard? || e.PushBack? || e.Commit? {
      AcquireDeficit(maxIdle, s, e);
    } else if e.StartRecycle? || e.AbortRecycle? || e.PutRecycled? {
      RecycleDeficit(maxIdle, s, e);
    } else {
      match e
      case Put(tunnel, state, now) => PutDeficit(maxIdle, s, tunnel, state, now);
      case Remove(id) => RemoveDeficit(s, id);
      case EvictExpired(now, ttl) =>
        ExpiredAreQueued(s.pool.queue, now, ttl);
        EvictDeficit(s, ExpiredKeys(s.pool.queue, now, ttl));
      case EvictSeen(candidates) =>
        CandidatesAreQueued(s.pool.queue, candidates);
        EvictDeficit(s, CandidateKeys(s.pool.queue, candidates));
      case _ =>
    }
  }

  function Losing(maxIdle: nat): (State, Event) -> int {
    (s: State, e: Event) => Lost(maxIdle, s, e)
  }

  lemma StepsCostLosses(maxIdle: nat)
    ensures Costs(Stepping(maxIdle), Ordered, Deficit, Losing(maxIdle))
  {
    forall s, e | Ordered(s)
      ensures Ordered(Stepping(maxIdle)(s, e))
      ensures Deficit(Stepping(maxIdle)(s, e)) == Deficit(s) + Losing(maxIdle)(s, e)
    {
      StepDeficit(maxIdle, s, e);
    }
  }

  /** Whatever ids come in, what is missing from the books is exactly what the steps so far have lost. */
  lemma DeficitIsLost(maxIdle: nat, events: seq<Event>, k: nat)
    requires k <= |events|
    ensures Deficit(After(maxIdle, events, k)) == Total(Stepping(maxIdle), START, events, Losing(maxIdle), k)
  {
    StepsCostLosses(maxIdle);
    CostsAddUp(Stepping(maxIdle), START, events, Ordered, Deficit, Losing(maxIdle), k);
  }

  // A tunnel that PutIdle stores in place of another one with its id is no fresh insertion; the other one is dropped.

  /** The step stores a tunnel in place of another object that is idle under the same id. */
  predicate Displaces(maxIdle: nat, s: State, e: Event) {
    && e.Put? && PutIdleSpec(maxIdle, s.pool, e.tunnel, e.state, e.now).1 == None
    && exists entry :: entry in s.pool.queue && Key(entry.tunnel) == Key(e.tunnel)
                       && entry.tunnel.object_ != e.tunnel.object_
  }

  /** How many tunnels come in with a step that are not idle already. */
  function Arrivals(maxIdle: nat, s: State, e: Event): int {
    if Displaces(maxIdle, s, e) || Step(maxIdle, s, e).inserted > s.inserted then 1 else 0
  }

  function Arriving(maxIdle: nat): (State, Event) -> int {
    (s: State, e: Event) => Arrivals(maxIdle, s, e)
  }

  function Displacing(maxIdle: nat): (State, Event) -> int {
    (s: State, e: Event) => if Displaces(maxIdle, s, e) then 1 else 0
  }

  function Inserting(maxIdle: nat): (State, Event) -> int {
    (s: State, e: Event) => Arrivals(maxIdle, s, e) - if Displaces(maxIdle, s, e) then 1 else 0
  }

  lemma KeyOf(queue: seq<Entry>, entry: Entry)
    requires entry in queue
    ensures Key(entry.tunnel) in QueueKeys(queue)
  {
    if queue != [] && queue[0] != entry {
      KeyOf(queue[1..], entry);
    }
  }

  lemma StepInserts(maxIdle: nat, s: State, e: Event)
    ensures Step(maxIdle, s, e).inserted == s.inserted + Inserting(maxIdle)(s, e)
  {
    if Displaces(maxIdle, s, e) {
      var entry :| entry in s.pool.queue && Key(entry.tunnel) == Key(e.tunnel);
      KeyOf(s.pool.queue, entry);
    }
  }

  lemma StepsInsert(maxIdle: nat)
    ensures Costs(Stepping(maxIdle), (s: State) => true, (s: State) => s.inserted, Inserting(maxIdle))
  {
    forall s: State, e
      ensures Stepping(maxIdle)(s, e).inserted == s.inserted + Inserting(maxIdle)(s, e)
    {
      StepInserts(maxIdle, s, e);
    }
  }

  /**
   Counted by tunnels instead of by fresh ids: of the tunnels that came in, all are in the books but those that a clash
   has lost and those that were displaced while they were idle.
   */
  lemma TunnelsMissing(maxIdle: nat, events: seq<Event>, k: nat)
    requires k <= |events|
    ensures Total(Stepping(maxIdle), START, events, Arriving(maxIdle), k) - Accounted(After(maxIdle, events, k))
         == Total(Stepping(maxIdle), START, events, Losing(maxIdle), k)
            + Total(Stepping(maxIdle), START, events, Displacing(maxIdle), k)
  {
    DeficitIsLost(maxIdle, events, k);
    StepsInsert(maxIdle);
    CostsAddUp(Stepping(maxIdle), START, events, (s: State) => true, (s: State) => s.inserted, Inserting(maxIdle), k);
    TotalsAdd(Stepping(maxIdle), START, events, Arriving(maxIdle), Inserting(maxIdle), Displacing(maxIdle), k);
  }

  // ---------------------------------------------------------------------------------------------
  // Steps without interference make up the operations
  // ---------------------------------------------------------------------------------------------

  /** What one thread does in an Acquire that nobody interferes with. */
  function AcquireEvents(queue: seq<Entry>, look: Tunnel -> Sight, thread: nat, now: Time): seq<Event> {
    if queue == [] then [Pop(thread)]
    else if Unfit(look(queue[0].tunnel)) then
      [Pop(thread), Discard(thread), FinishClose] + AcquireEvents(queue[1..], look, thread, now)
    else if look(queue[0].tunnel).cancelled then [Pop(thread), PushBack(thread, now)]
    else [Pop(thread), Commit(thread)]
  }

  lemma RunThree<S, E>(step: (S, E) -> S, s: S, a: E, b: E, c: E, rest: seq<E>)
    ensures RunAll(step, s, [a, b, c] + rest) == RunAll(step, step(step(step(s, a), b), c), rest)
  {
    var all := [a, b, c] + rest;
    assert all[1..] == [b, c] + rest && ([b, c] + rest)[1..] == [c] + rest && ([c] + rest)[1..] == rest;
    assert RunAll(step, step(s, a), [b, c] + rest) == RunAll(step, step(step(s, a), b), [c] + rest);
    assert RunAll(step, step(step(s, a), b), [c] + rest) == RunAll(step, step(step(step(s, a), b), c), rest);
  }

  lemma RunJustThree<S, E>(step: (S, E) -> S, s: S, a: E, b: E, c: E)
    ensures RunAll(step, s, [a, b, c]) == step(step(step(s, a), b), c)
  {
    assert [a, b, c] == [a, b, c] + [];
    RunThree(step, s, a, b, c, []);
  }

  lemma RunTwo<S, E>(step: (S, E) -> S, s: S, a: E, b: E)
    ensures RunAll(step, s, [a, b]) == step(step(s, a), b)
  {
    assert [a, b][1..] == [b] && [b][1..] == [];
    assert RunAll(step, step(s, a), [b]) == step(step(s, a), b);
  }

  lemma TakeAndReturn(m: map<nat, Entry>, t: nat, e: Entry)
    requires t !in m
    ensures m[t := e] - {t} == m && m[t := e][t] == e
  {
  }

  /** Taking one unfit tunnel and closing it. */
  lemma DiscardOne(maxIdle: nat, s: State, thread: nat)
    requires Free(s, thread) && s.pool.queue != []
    ensures Step(maxIdle, Step(maxIdle, Step(maxIdle, s, Pop(thread)), Discard(thread)), FinishClose)
         == s.(pool := s.pool.(queue := s.pool.queue[1..], closed := s.pool.closed + 1))
  {
    TakeAndReturn(s.probing, thread, s.pool.queue[0]);
  }

  lemma TakeOne(maxIdle: nat, s: State, thread: nat, now: Time)
    requires Free(s, thread) && s.pool.queue != []
    ensures var entry, rest := s.pool.queue[0], s.pool.(queue := s.pool.queue[1..]);
            && Step(maxIdle, Step(maxIdle, s, Pop(thread)), PushBack(thread, now))
               == s.(pool := PushSpec(rest, entry, now))
            && Step(maxIdle, Step(maxIdle, s, Pop(thread)), Commit(thread))
               == s.(pool := CommitSpec(rest, entry.tunnel))
  {
    TakeAndReturn(s.probing, thread, s.pool.queue[0]);
  }

  lemma SkipUnfit(pool: Pool, look: Tunnel -> Sight, now: Time)
    requires pool.queue != [] && Unfit(look(pool.queue[0].tunnel))
    ensures AcquireSpec(pool, look, now)
         == AcquireSpec(pool.(queue := pool.queue[1..], closed := pool.closed + 1), look, now)
  {
    var k := UnfitPrefix(pool.queue[1..], look);
    UnfitPrefixBounds(pool.queue[1..], look);
    if k < |pool.queue[1..]| {
      assert pool.queue[1..][k] == pool.queue[k + 1] && pool.queue[1..][k + 1..] == pool.queue[k + 2..];
    }
  }

  /** An undisturbed run of a thread's Acquire steps is the method Acquire: same pool, and a waiter if it must wait. */
  lemma {:induction false} AcquireIsItsSteps(maxIdle: nat, s: State, look: Tunnel -> Sight, thread: nat, now: Time)
    requires Free(s, thread)
    ensures RunAll(Stepping(maxIdle), s, AcquireEvents(s.pool.queue, look, thread, now))
         == s.(pool := AcquireSpec(s.pool, look, now).0,
               waiting := if AcquireSpec(s.pool, look, now).1.MustWait?
                          then s.waiting[thread := AcquireSpec(s.pool, look, now).1.generation] else s.waiting)
    decreases |s.pool.queue|
  {
    var queue := s.pool.queue;
    if queue == [] {
      assert [Pop(thread)][1..] == [];
    } else if Unfit(look(queue[0].tunnel)) {
      var next := s.(pool := s.pool.(queue := queue[1..], closed := s.pool.closed + 1));
      RunThree(Stepping(maxIdle), s, Pop(thread), Discard(thread), FinishClose,
               AcquireEvents(queue[1..], look, thread, now));
      DiscardOne(maxIdle, s, thread);
      AcquireIsItsSteps(maxIdle, next, look, thread, now);
      SkipUnfit(s.pool, look, now);
    } else {
      TakeOne(maxIdle, s, thread, now);
      RunTwo(Stepping(maxIdle), s, Pop(thread), PushBack(thread, now));
      RunTwo(Stepping(maxIdle), s, Pop(thread), Commit(thread));
      assert UnfitPrefix(queue, look) == 0;
    }
  }

  /** What one thread does in a Recycle that nobody interferes with, once the tunnel is found in use. */
  function RecycleEvents(maxIdle: nat, s: State, tunnel: Tunnel, cancelled: bool, recyclable: bool, flushed: bool,
                         state: TunnelState, now: Time, thread: nat): seq<Event> {
    var freed := s.pool.(inUse := s.pool.inUse - {Key(tunnel)});
    if cancelled || !recyclable || !flushed then [StartRecycle(thread, tunnel), AbortRecycle(thread), FinishClose]
    else
      [StartRecycle(thread, tunnel), PutRecycled(thread, state, now),
       if PutIdleSpec(maxIdle, freed, tunnel, state, now).1 == None then Credit else FinishClose]
  }

  lemma AbortedRecycle(maxIdle: nat, s: State, tunnel: Tunnel, thread: nat)
    requires Free(s, thread) && Key(tunnel) != "" && Key(tunnel) in s.pool.inUse
    ensures Step(maxIdle, Step(maxIdle, Step(maxIdle, s, StartRecycle(thread, tunnel)), AbortRecycle(thread)),
                 FinishClose)
         == s.(pool := s.pool.(inUse := s.pool.inUse - {Key(tunnel)}, closed := s.pool.closed + 1))
  {
    TakeAndReturn(s.recycling, thread, Entry(tunnel, 0));
  }

  lemma StoredRecycle(maxIdle: nat, s: State, tunnel: Tunnel, state: TunnelState, now: Time, thread: nat)
    requires Free(s, thread) && Key(tunnel) != "" && Key(tunnel) in s.pool.inUse
    ensures var freed := s.pool.(inUse := s.pool.inUse - {Key(tunnel)});
            var put := PutIdleSpec(maxIdle, freed, tunnel, state, now);
            Step(maxIdle, Step(maxIdle, s, StartRecycle(thread, tunnel)), PutRecycled(thread, state, now))
            == if put.1 == None then s.(pool := put.0, crediting := s.crediting + 1, returned := s.returned + 1)
               else s.(pool := freed, closing := s.closing + 1)
  {
    TakeAndReturn(s.recycling, thread, Entry(tunnel, 0));
    var freed := s.pool.(inUse := s.pool.inUse - {Key(tunnel)});
    var started := Step(maxIdle, s, StartRecycle(thread, tunnel));
    assert started == s.(pool := freed, recycling := s.recycling[thread := Entry(tunnel, 0)]);
  }

  lemma AbortedRecycleRun(maxIdle: nat, s: State, tunnel: Tunnel, thread: nat)
    requires Free(s, thread) && Key(tunnel) != "" && Key(tunnel) in s.pool.inUse
    ensures RunAll(Stepping(maxIdle), s, [StartRecycle(thread, tunnel), AbortRecycle(thread), FinishClose])
         == s.(pool := s.pool.(inUse := s.pool.inUse - {Key(tunnel)}, closed := s.pool.closed + 1))
  {
    RunJustThree(Stepping(maxIdle), s, StartRecycle(thread, tunnel), AbortRecycle(thread), FinishClose);
    AbortedRecycle(maxIdle, s, tunnel, thread);
  }

  lemma StoredRecycleRun(maxIdle: nat, s: State, tunnel: Tunnel, state: TunnelState, now: Time, thread: nat)
    requires Free(s, thread) && Key(tunnel) != "" && Key(tunnel) in s.pool.inUse
    ensures var freed := s.pool.(inUse := s.pool.inUse - {Key(tunnel)});
            var put := PutIdleSpec(maxIdle, freed, tunnel, state, now);
            RunAll(Stepping(maxIdle), s,
                   [StartRecycle(thread, tunnel), PutRecycled(thread, state, now),
                    if put.1 == None then Credit else FinishClose])
            == if put.1 == None then s.(pool := put.0.(recycled := s.pool.recycled + 1), returned := s.returned + 1)
               else s.(pool := freed.(closed := s.pool.closed + 1))
  {
    var freed := s.pool.(inUse := s.pool.inUse - {Key(tunnel)});
    var last := if PutIdleSpec(maxIdle, freed, tunnel, state, now).1 == None then Credit else FinishClose;
    RunJustThree(Stepping(maxIdle), s, StartRecycle(thread, tunnel), PutRecycled(thread, state, now), last);
    StoredRecycle(maxIdle, s, tunnel, state, now, thread);
    PutIsNamed(maxIdle, freed, tunnel, state, now);
  }

  /** An undisturbed run of the steps of Recycle is the method Recycle. */
  lemma RecycleIsItsSteps(maxIdle: nat, s: State, tunnel: Tunnel, cancelled: bool, recyclable: bool, flushed: bool,
                          state: TunnelState, now: Time, thread: nat)
    requires Free(s, thread) && Key(tunnel) != "" && Key(tunnel) in s.pool.inUse
    ensures var spec := RecycleSpec(maxIdle, s.pool, tunnel, cancelled, recyclable, flushed, state, now);
            var events := RecycleEvents(maxIdle, s, tunnel, cancelled, recyclable, flushed, state, now, thread);
            RunAll(Stepping(maxIdle), s, events)
            == s.(pool := spec.0, returned := s.returned + if spec.1 == None then 1 else 0)
  {
    var freed := s.pool.(inUse := s.pool.inUse - {Key(tunnel)});
    var spec := RecycleSpec(maxIdle, s.pool, tunnel, cancelled, recyclable, flushed, state, now);
    assert spec == FinishRecycleSpec(maxIdle, freed, tunnel, cancelled, recyclable, flushed, state, now);
    if cancelled || !recyclable || !flushed {
      assert spec.0 == freed.(closed := s.pool.closed + 1) && spec.1.Some?;
      AbortedRecycleRun(maxIdle, s, tunnel, thread);
    } else {
      StoredRecycleRun(maxIdle, s, tunnel, state, now, thread);
    }
  }

  lemma PutIsNamed(maxIdle: nat, pool: Pool, tunnel: Tunnel, state: TunnelState, now: Time)
    ensures var put := PutIdleSpec(maxIdle, pool, tunnel, state, now); put.1 == None || put.0 == pool
    ensures PutIdleSpec(maxIdle, pool, tunnel, state, now).0.recycled == pool.recycled
  {
  }
}
