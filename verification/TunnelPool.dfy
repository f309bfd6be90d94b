/**
 The in-memory tunnel pool (ltfp/transport/tunnel_pool.go). Its idle map, order list and timestamp map represent one
 FIFO queue; every operation is specified on that queue.
 */
module TunnelPool {
  import opened Basics
  import opened Results

  // ---------------------------------------------------------------------------------------------
  // The pool as a queue
  // ---------------------------------------------------------------------------------------------

  datatype TunnelState = Opening | Idle | Reserved | Active | Closing | Closed | Broken

  /**
   An id as it is reported, and what is left of it after trimming. No other fact about trimming matters to the pool.
   */
  datatype ID = ID(raw: string, trimmed: string)

  /** A tunnel: the object, and the id it reports. */
  datatype Tunnel = Tunnel(object_: nat, id: ID)

  function Key(tunnel: Tunnel): string {
    tunnel.id.trimmed
  }

  /** A time; 0 is Go's zero time. */
  type Time = int

  datatype Entry = Entry(tunnel: Tunnel, insertedAt: Time)

  /** `generation` counts the notify channels: it names the current one, and all smaller ones are closed. */
  datatype Pool = Pool(queue: seq<Entry>, inUse: map<string, Tunnel>, recycled: nat, closed: nat, generation: nat)

  datatype PoolError =
    | InvalidArgument | StateTransition | TunnelInUse | PoolExhausted | TunnelNotFound
    | Cancelled | TunnelBroken | FlushFailed

  function QueueKeys(queue: seq<Entry>): set<string> {
    if queue == [] then {} else {Key(queue[0].tunnel)} + QueueKeys(queue[1..])
  }

  /** No two entries have the same key. */
  predicate DistinctKeys(queue: seq<Entry>) {
    queue != [] ==> Key(queue[0].tunnel) !in QueueKeys(queue[1..]) && DistinctKeys(queue[1..])
  }

  function Replace(queue: seq<Entry>, entry: Entry): seq<Entry> {
    seq(|queue|, i requires 0 <= i < |queue| =>
      if Key(queue[i].tunnel) == Key(entry.tunnel) then entry else queue[i])
  }

  /** The queue without the keys in `drop`, in order. */
  function Keep(queue: seq<Entry>, drop: set<string>): seq<Entry> {
    if queue == [] then []
    else if Key(queue[0].tunnel) in drop then Keep(queue[1..], drop)
    else [queue[0]] + Keep(queue[1..], drop)
  }

  function PutIdleSpec(maxIdle: nat, pool: Pool, tunnel: Tunnel, state: TunnelState, now: Time)
    : (Pool, Option<PoolError>)
  {
    if state != Idle then (pool, Some(StateTransition))
    else if Key(tunnel) == "" then (pool, Some(InvalidArgument))
    else if Key(tunnel) in pool.inUse then (pool, Some(TunnelInUse))
    else if Key(tunnel) in QueueKeys(pool.queue) then
      (pool.(queue := Replace(pool.queue, Entry(tunnel, now))), None)
    else if |pool.queue| >= maxIdle then (pool, Some(PoolExhausted))
    else (pool.(queue := pool.queue + [Entry(tunnel, now)], generation := pool.generation + 1), None)
  }

  /** An entry goes back to the end of the queue; the size limit is not applied. */
  function PushSpec(pool: Pool, entry: Entry, now: Time): Pool {
    if Key(entry.tunnel) == "" || Key(entry.tunnel) in QueueKeys(pool.queue) then pool
    else
      var insertedAt := if entry.insertedAt == 0 then now else entry.insertedAt;
      pool.(queue := pool.queue + [Entry(entry.tunnel, insertedAt)], generation := pool.generation + 1)
  }

  function CommitSpec(pool: Pool, tunnel: Tunnel): Pool {
    pool.(inUse := pool.inUse[tunnel.id.raw := tunnel])
  }

  function RemoveSpec(pool: Pool, id: ID): (Pool, Option<PoolError>) {
    var key := id.trimmed;
    if key == "" then (pool, Some(InvalidArgument))
    else if key !in QueueKeys(pool.queue) && key !in pool.inUse then (pool, Some(TunnelNotFound))
    else (pool.(queue := Keep(pool.queue, {key}), inUse := pool.inUse - {key}), None)
  }

  /**
   The end of Recycle, for a tunnel no longer in use: back to the queue and counted as recycled, or counted as closed.
   */
  function FinishRecycleSpec(maxIdle: nat, pool: Pool, tunnel: Tunnel, cancelled: bool, recyclable: bool, flushed: bool,
                             state: TunnelState, now: Time): (Pool, Option<PoolError>) {
    var dropped := pool.(closed := pool.closed + 1);
    if cancelled then (dropped, Some(Cancelled))
    else if !recyclable then (dropped, Some(TunnelBroken))
    else if !flushed then (dropped, Some(FlushFailed))
    else
      var put := PutIdleSpec(maxIdle, pool, tunnel, state, now);
      if put.1.Some? then (dropped, put.1) else (put.0.(recycled := pool.recycled + 1), None)
  }

  function RecycleSpec(maxIdle: nat, pool: Pool, tunnel: Tunnel, cancelled: bool, recyclable: bool, flushed: bool,
                       state: TunnelState, now: Time): (Pool, Option<PoolError>) {
    if Key(tunnel) == "" then (pool, Some(InvalidArgument))
    else if Key(tunnel) !in pool.inUse then (pool, Some(TunnelNotFound))
    else
      FinishRecycleSpec(maxIdle, pool.(inUse := pool.inUse - {Key(tunnel)}), tunnel, cancelled, recyclable, flushed,
                        state, now)
  }

  predicate Expired(entry: Entry, now: Time, ttl: int) {
    entry.insertedAt == 0 || now - entry.insertedAt >= ttl
  }

  function ExpiredKeys(queue: seq<Entry>, now: Time, ttl: int): set<string> {
    if queue == [] then {}
    else (if Expired(queue[0], now, ttl) then {Key(queue[0].tunnel)} else {}) + ExpiredKeys(queue[1..], now, ttl)
  }

  /** An idle tunnel that a sweep has judged, with the insertion time it saw. */
  datatype Candidate = Candidate(key: string, insertedAt: Time)

  /** A candidate goes only if its insertion time is still the one that the sweep saw. */
  function CandidateKeys(queue: seq<Entry>, candidates: seq<Candidate>): set<string> {
    if queue == [] then {}
    else
      var key := Key(queue[0].tunnel);
      (if Candidate(key, queue[0].insertedAt) in candidates then {key} else {}) + CandidateKeys(queue[1..], candidates)
  }

  function Younger(queue: seq<Entry>, now: Time, ttl: int): seq<Entry> {
    if queue == [] then []
    else (if Expired(queue[0], now, ttl) then [] else [queue[0]]) + Younger(queue[1..], now, ttl)
  }

  // ---------------------------------------------------------------------------------------------
  // Facts about queues
  // ---------------------------------------------------------------------------------------------

  lemma KeepKeys(queue: seq<Entry>, drop: set<string>)
    ensures QueueKeys(Keep(queue, drop)) == QueueKeys(queue) - drop
    ensures DistinctKeys(queue) ==> DistinctKeys(Keep(queue, drop))
    ensures |Keep(queue, drop)| <= |queue|
  {
    if queue != [] {
      KeepKeys(queue[1..], drop);
      var rest := Keep(queue[1..], drop);
      assert ([queue[0]] + rest)[1..] == rest;
    }
  }

  lemma SnocKeys(queue: seq<Entry>, entry: Entry)
    ensures QueueKeys(queue + [entry]) == QueueKeys(queue) + {Key(entry.tunnel)}
    ensures DistinctKeys(queue) && Key(entry.tunnel) !in QueueKeys(queue) ==> DistinctKeys(queue + [entry])
  {
    if queue == [] {
      assert queue + [entry] == [entry];
    } else {
      SnocKeys(queue[1..], entry);
      assert (queue + [entry])[1..] == queue[1..] + [entry];
    }
  }

  lemma ReplaceKeys(queue: seq<Entry>, entry: Entry)
    ensures QueueKeys(Replace(queue, entry)) == QueueKeys(queue)
    ensures DistinctKeys(queue) ==> DistinctKeys(Replace(queue, entry))
  {
    if queue != [] {
      ReplaceKeys(queue[1..], entry);
      assert Replace(queue, entry)[1..] == Replace(queue[1..], entry);
    }
  }

  lemma KeepNothing(queue: seq<Entry>, drop: set<string>)
    requires QueueKeys(queue) !! drop
    ensures Keep(queue, drop) == queue
  {
    if queue != [] {
      KeepNothing(queue[1..], drop);
    }
  }

  lemma KeepMembers(queue: seq<Entry>, drop: set<string>, e: Entry)
    ensures e in Keep(queue, drop) <==> e in queue && Key(e.tunnel) !in drop
  {
    if queue != [] {
      KeepMembers(queue[1..], drop, e);
      assert e in queue <==> e == queue[0] || e in queue[1..];
    }
  }

  lemma KeepTwice(queue: seq<Entry>, drop: set<string>, drop2: set<string>)
    ensures Keep(Keep(queue, drop), drop2) == Keep(queue, drop + drop2)
  {
    if queue != [] {
      KeepTwice(queue[1..], drop, drop2);
      var rest := Keep(queue[1..], drop);
      if Key(queue[0].tunnel) !in drop {
        assert ([queue[0]] + rest)[1..] == rest;
      }
    }
  }

  lemma KeepDependsOn(queue: seq<Entry>, drop: set<string>, drop2: set<string>)
    requires forall key :: key in QueueKeys(queue) ==> (key in drop <==> key in drop2)
    ensures Keep(queue, drop) == Keep(queue, drop2)
  {
    if queue != [] {
      KeepDependsOn(queue[1..], drop, drop2);
    }
  }

  lemma ExpiredAreQueued(queue: seq<Entry>, now: Time, ttl: int)
    ensures ExpiredKeys(queue, now, ttl) <= QueueKeys(queue)
  {
  }

  /** Evicting expired tunnels keeps exactly the younger ones, in their order. */
  lemma {:induction false} EvictionKeepsYounger(queue: seq<Entry>, now: Time, ttl: int)
    requires DistinctKeys(queue)
    ensures Keep(queue, ExpiredKeys(queue, now, ttl)) == Younger(queue, now, ttl)
    ensures |Younger(queue, now, ttl)| + |ExpiredKeys(queue, now, ttl)| == |queue|
  {
    if queue != [] {
      var tail := queue[1..];
      EvictionKeepsYounger(tail, now, ttl);
      ExpiredAreQueued(tail, now, ttl);
      KeepDependsOn(tail, ExpiredKeys(queue, now, ttl), ExpiredKeys(tail, now, ttl));
    }
  }

  lemma KeepOneLess(queue: seq<Entry>, key: string)
    requires DistinctKeys(queue) && key in QueueKeys(queue)
    ensures |Keep(queue, {key})| == |queue| - 1
  {
    if Key(queue[0].tunnel) == key {
      KeepNothing(queue[1..], {key});
    } else {
      KeepOneLess(queue[1..], key);
    }
  }

  lemma ExpiredAfterKeep(queue: seq<Entry>, drop: set<string>, now: Time, ttl: int)
    ensures ExpiredKeys(Keep(queue, drop), now, ttl) == ExpiredKeys(queue, now, ttl) - drop
  {
    if queue != [] {
      ExpiredAfterKeep(queue[1..], drop, now, ttl);
      assert ([queue[0]] + Keep(queue[1..], drop))[1..] == Keep(queue[1..], drop);
    }
  }

  lemma CandidatesAreQueued(queue: seq<Entry>, candidates: seq<Candidate>)
    ensures CandidateKeys(queue, candidates) <= QueueKeys(queue)
  {
  }

  lemma CandidatesAfterKeep(queue: seq<Entry>, drop: set<string>, candidates: seq<Candidate>)
    ensures CandidateKeys(Keep(queue, drop), candidates) == CandidateKeys(queue, candidates) - drop
  {
    if queue != [] {
      CandidatesAfterKeep(queue[1..], drop, candidates);
      assert ([queue[0]] + Keep(queue[1..], drop))[1..] == Keep(queue[1..], drop);
    }
  }

  lemma CandidatesUnion(queue: seq<Entry>, a: seq<Candidate>, b: seq<Candidate>)
    ensures CandidateKeys(queue, a + b) == CandidateKeys(queue, a) + CandidateKeys(queue, b)
  {
  }

  lemma OneCandidate(queue: seq<Entry>, candidate: Candidate)
    ensures CandidateKeys(queue, [candidate]) <= {candidate.key}
  {
  }

  lemma NoCandidates(queue: seq<Entry>)
    ensures CandidateKeys(queue, []) == {} && Keep(queue, {}) == queue
  {
  }

  /** Dropping the candidates one by one drops them all. */
  lemma NextCandidate(queue: seq<Entry>, candidates: seq<Candidate>, next: nat)
    requires next < |candidates|
    ensures var rest := Keep(queue, CandidateKeys(queue, candidates[..next]));
            Keep(rest, CandidateKeys(rest, [candidates[next]]))
            == Keep(queue, CandidateKeys(queue, candidates[..next + 1]))
  {
    var dropped, more := CandidateKeys(queue, candidates[..next]), CandidateKeys(queue, [candidates[next]]);
    CandidatesAfterKeep(queue, dropped, [candidates[next]]);
    CandidatesUnion(queue, candidates[..next], [candidates[next]]);
    KeepTwice(queue, dropped, more - dropped);
    assert candidates[..next] + [candidates[next]] == candidates[..next + 1];
    assert dropped + (more - dropped) == CandidateKeys(queue, candidates[..next + 1]);
  }

  lemma NextExpiredSet(expired: set<string>, done: set<string>, remaining: set<string>, key: string)
    requires done == expired - remaining && key in remaining
    ensures done + (if key in expired then {key} else {}) == expired - (remaining - {key})
  {
  }

  /** One more of the keys found at the start is judged, and evicted if it is expired. */
  lemma NextExpired(queue: seq<Entry>, evicted: set<string>, remaining: set<string>, key: string, now: Time, ttl: int)
    requires evicted == ExpiredKeys(queue, now, ttl) - remaining && key in remaining
    requires remaining <= QueueKeys(Keep(queue, evicted))
    ensures var rest := Keep(queue, evicted);
            && key in QueueKeys(rest) && key !in evicted
            && (key in ExpiredKeys(rest, now, ttl) <==> key in ExpiredKeys(queue, now, ttl))
            && Keep(rest, {key}) == Keep(queue, evicted + {key})
            && remaining - {key} <= QueueKeys(Keep(rest, {key}))
            && evicted + (if key in ExpiredKeys(queue, now, ttl) then {key} else {})
               == ExpiredKeys(queue, now, ttl) - (remaining - {key})
  {
    NextExpiredSet(ExpiredKeys(queue, now, ttl), evicted, remaining, key);
    ExpiredAfterKeep(queue, evicted, now, ttl);
    KeepTwice(queue, evicted, {key});
    KeepKeys(Keep(queue, evicted), {key});
  }

  // ---------------------------------------------------------------------------------------------
  // The representation
  // ---------------------------------------------------------------------------------------------

  function Elements(order: seq<string>): set<string> {
    if order == [] then {} else {order[0]} + Elements(order[1..])
  }

  /** The order list has no duplicates and lists exactly the keys of the idle map and of the timestamp map. */
  ghost predicate Represents(order: seq<string>, idle: map<string, Tunnel>, times: map<string, Time>) {
    && NoDuplicates(order) && Elements(order) == idle.Keys == times.Keys
    && forall key :: key in idle ==> key != "" && Key(idle[key]) == key
  }

  ghost predicate Listed(order: seq<string>, idle: map<string, Tunnel>, times: map<string, Time>) {
    forall key :: key in order ==> key in idle && key in times && Key(idle[key]) == key
  }

  ghost function QueueOf(order: seq<string>, idle: map<string, Tunnel>, times: map<string, Time>): seq<Entry>
    requires Listed(order, idle, times)
  {
    seq(|order|, i requires 0 <= i < |order| => Entry(idle[order[i]], times[order[i]]))
  }

  lemma ElementsIn(order: seq<string>)
    ensures forall key :: key in order <==> key in Elements(order)
  {
  }

  function RemoveFirst(order: seq<string>, id: string): seq<string> {
    if order == [] then []
    else if order[0] == id then order[1..]
    else [order[0]] + RemoveFirst(order[1..], id)
  }

  /** The order list from the first key that is still idle. */
  function SkipStale(order: seq<string>, idle: map<string, Tunnel>): seq<string> {
    if order == [] || order[0] in idle then order else SkipStale(order[1..], idle)
  }

  lemma RepresentedIsListed(order: seq<string>, idle: map<string, Tunnel>, times: map<string, Time>)
    requires Represents(order, idle, times)
    ensures Listed(order, idle, times)
  {
    ElementsIn(order);
  }

  lemma QueueTail(order: seq<string>, idle: map<string, Tunnel>, times: map<string, Time>)
    requires Listed(order, idle, times) && order != []
    ensures Listed(order[1..], idle, times) && QueueOf(order, idle, times)[1..] == QueueOf(order[1..], idle, times)
    ensures QueueOf(order, idle, times)[0] == Entry(idle[order[0]], times[order[0]])
  {
  }

  lemma {:induction false} ListedKeys(order: seq<string>, idle: map<string, Tunnel>, times: map<string, Time>)
    requires Listed(order, idle, times)
    ensures QueueKeys(QueueOf(order, idle, times)) == Elements(order)
    ensures NoDuplicates(order) ==> DistinctKeys(QueueOf(order, idle, times))
  {
    if order != [] {
      QueueTail(order, idle, times);
      ListedKeys(order[1..], idle, times);
      ElementsIn(order[1..]);
    }
  }

  lemma RepresentedKeys(order: seq<string>, idle: map<string, Tunnel>, times: map<string, Time>)
    requires Represents(order, idle, times)
    ensures Listed(order, idle, times)
    ensures var queue := QueueOf(order, idle, times);
            QueueKeys(queue) == idle.Keys && DistinctKeys(queue) && |queue| == |idle|
  {
    RepresentedIsListed(order, idle, times);
    ListedKeys(order, idle, times);
    CountElements(order);
  }

  /** Which keys are expired, or match a candidate, can be read off the timestamp map. */
  lemma {:induction false} KeysByTime(order: seq<string>, idle: map<string, Tunnel>, times: map<string, Time>,
                                      now: Time,
                                      ttl: int, candidates: seq<Candidate>, key: string)
    requires Listed(order, idle, times)
    ensures var queue := QueueOf(order, idle, times);
            && (key in ExpiredKeys(queue, now, ttl)
                <==> key in order && (times[key] == 0 || now - times[key] >= ttl))
            && (key in CandidateKeys(queue, candidates) <==> key in order && Candidate(key, times[key]) in candidates)
  {
    if order != [] {
      QueueTail(order, idle, times);
      KeysByTime(order[1..], idle, times, now, ttl, candidates, key);
      assert key in order <==> key == order[0] || key in order[1..];
    }
  }

  lemma QueueByKey(order: seq<string>, idle: map<string, Tunnel>, times: map<string, Time>)
    requires Represents(order, idle, times)
    ensures Listed(order, idle, times)
    ensures forall e: Entry :: e in QueueOf(order, idle, times) <==>
              Key(e.tunnel) in idle && e == Entry(idle[Key(e.tunnel)], times[Key(e.tunnel)])
  {
    RepresentedIsListed(order, idle, times);
    ElementsIn(order);
    var queue := QueueOf(order, idle, times);
    forall e: Entry | Key(e.tunnel) in idle && e == Entry(idle[Key(e.tunnel)], times[Key(e.tunnel)])
      ensures e in queue
    {
      assert Key(e.tunnel) in order;
      var i :| 0 <= i < |order| && order[i] == Key(e.tunnel);
      assert queue[i] == e;
    }
  }

  lemma ExpiredByTime(order: seq<string>, idle: map<string, Tunnel>, times: map<string, Time>, now: Time, ttl: int,
                      key: string)
    requires Represents(order, idle, times)
    ensures Listed(order, idle, times)
    ensures key in QueueKeys(QueueOf(order, idle, times)) <==> key in times
    ensures key in ExpiredKeys(QueueOf(order, idle, times), now, ttl)
            <==> key in times && (times[key] == 0 || now - times[key] >= ttl)
  {
    RepresentedKeys(order, idle, times);
    ElementsIn(order);
    KeysByTime(order, idle, times, now, ttl, [], key);
  }

  lemma CandidateByTime(order: seq<string>, idle: map<string, Tunnel>, times: map<string, Time>, candidate: Candidate)
    requires Represents(order, idle, times)
    ensures Listed(order, idle, times)
    ensures var queue := QueueOf(order, idle, times);
            if candidate.key in times && times[candidate.key] == candidate.insertedAt then
              CandidateKeys(queue, [candidate]) == {candidate.key}
              && candidate.key in idle && Key(idle[candidate.key]) == candidate.key
              && |Keep(queue, {candidate.key})| == |queue| - 1
            else CandidateKeys(queue, [candidate]) == {} && Keep(queue, {}) == queue
    ensures candidate.key in idle <==> candidate.key in times
  {
    RepresentedKeys(order, idle, times);
    var queue := QueueOf(order, idle, times);
    ElementsIn(order);
    KeysByTime(order, idle, times, 0, 0, [candidate], candidate.key);
    OneCandidate(queue, candidate);
    if candidate.key in times && times[candidate.key] == candidate.insertedAt {
      KeepOneLess(queue, candidate.key);
    } else {
      assert CandidateKeys(queue, [candidate]) == {};
      NoCandidates(queue);
    }
  }

  lemma {:induction false} CountElements(order: seq<string>)
    requires NoDuplicates(order)
    ensures |Elements(order)| == |order|
  {
    if order != [] {
      ElementsIn(order[1..]);
      CountElements(order[1..]);
    }
  }

  lemma {:induction false} RemoveFirstAt(order: seq<string>, id: string, index: nat)
    requires index < |order| && id !in order[..index] && order[index] == id
    ensures RemoveFirst(order, id) == order[..index] + order[index + 1..]
  {
    if index > 0 {
      assert order[0] in order[..index] && order[1..][..index - 1] == order[1..index];
      assert forall k :: k in order[1..index] ==> k in order[..index];
      RemoveFirstAt(order[1..], id, index - 1);
      assert order[..index] == [order[0]] + order[1..index];
      assert order[1..][index..] == order[index + 1..];
    }
  }

  lemma RemoveFirstAbsent(order: seq<string>, id: string)
    requires id !in order
    ensures RemoveFirst(order, id) == order
  {
  }

  lemma RemoveFirstElements(order: seq<string>, id: string)
    requires NoDuplicates(order)
    ensures NoDuplicates(RemoveFirst(order, id)) && Elements(RemoveFirst(order, id)) == Elements(order) - {id}
  {
    if order != [] {
      ElementsIn(order[1..]);
      if order[0] != id {
        var rest := RemoveFirst(order[1..], id);
        RemoveFirstElements(order[1..], id);
        ElementsIn(rest);
        assert ([order[0]] + rest)[1..] == rest;
      }
    }
  }

  /** Deleting a key from the maps and from the order list removes its entry from the queue. */
  lemma DeleteRefines(order: seq<string>, idle: map<string, Tunnel>, times: map<string, Time>, key: string)
    requires Represents(order, idle, times)
    ensures Listed(order, idle, times)
    ensures var order', idle', times' := RemoveFirst(order, key), idle - {key}, times - {key};
            && Represents(order', idle', times') && Listed(order', idle', times')
            && QueueOf(order', idle', times') == Keep(QueueOf(order, idle, times), {key})
  {
    RepresentedIsListed(order, idle, times);
    RemoveFirstElements(order, key);
    var order', idle', times' := RemoveFirst(order, key), idle - {key}, times - {key};
    RepresentedIsListed(order', idle', times');
    QueueOfRemoveFirst(order, idle, times, key);
    assert QueueOf(order', idle', times') == QueueOf(order', idle, times);
  }

  lemma {:induction false} QueueOfRemoveFirst(order: seq<string>, idle: map<string, Tunnel>, times: map<string, Time>,
                                              key: string)
    requires NoDuplicates(order) && Listed(order, idle, times)
    ensures Listed(RemoveFirst(order, key), idle, times)
    ensures QueueOf(RemoveFirst(order, key), idle, times) == Keep(QueueOf(order, idle, times), {key})
  {
    if order != [] {
      var tail := order[1..];
      QueueTail(order, idle, times);
      if order[0] == key {
        ListedKeys(tail, idle, times);
        ElementsIn(tail);
        KeepNothing(QueueOf(tail, idle, times), {key});
      } else {
        QueueOfRemoveFirst(tail, idle, times, key);
        QueueCons(order[0], RemoveFirst(tail, key), idle, times);
      }
    }
  }

  lemma QueueCons(key: string, order: seq<string>, idle: map<string, Tunnel>, times: map<string, Time>)
    requires Listed(order, idle, times) && key in idle && key in times && Key(idle[key]) == key
    ensures Listed([key] + order, idle, times)
    ensures QueueOf([key] + order, idle, times) == [Entry(idle[key], times[key])] + QueueOf(order, idle, times)
  {
  }

  lemma AppendElements(order: seq<string>, key: string)
    requires NoDuplicates(order) && key !in order
    ensures NoDuplicates(order + [key]) && Elements(order + [key]) == Elements(order) + {key}
  {
    if order == [] {
      assert order + [key] == [key];
    } else {
      AppendElements(order[1..], key);
      assert (order + [key])[1..] == order[1..] + [key];
    }
  }

  lemma AppendRefines(order: seq<string>, idle: map<string, Tunnel>, times: map<string, Time>, tunnel: Tunnel,
                      now: Time)
    requires Represents(order, idle, times) && Key(tunnel) != "" && Key(tunnel) !in idle
    ensures Listed(order, idle, times)
    ensures var order', idle', times' := order + [Key(tunnel)], idle[Key(tunnel) := tunnel], times[Key(tunnel) := now];
            && Represents(order', idle', times') && Listed(order', idle', times')
            && QueueOf(order', idle', times') == QueueOf(order, idle, times) + [Entry(tunnel, now)]
  {
    var order', idle', times' := order + [Key(tunnel)], idle[Key(tunnel) := tunnel], times[Key(tunnel) := now];
    ElementsIn(order);
    RepresentedIsListed(order, idle, times);
    AppendElements(order, Key(tunnel));
    RepresentedIsListed(order', idle', times');
  }

  lemma ReplaceRefines(order: seq<string>, idle: map<string, Tunnel>, times: map<string, Time>, tunnel: Tunnel,
                       now: Time)
    requires Represents(order, idle, times) && Key(tunnel) in idle
    ensures Listed(order, idle, times)
    ensures var idle', times' := idle[Key(tunnel) := tunnel], times[Key(tunnel) := now];
            && Represents(order, idle', times') && Listed(order, idle', times')
            && QueueOf(order, idle', times') == Replace(QueueOf(order, idle, times), Entry(tunnel, now))
  {
    var idle', times' := idle[Key(tunnel) := tunnel], times[Key(tunnel) := now];
    RepresentedIsListed(order, idle, times);
    RepresentedIsListed(order, idle', times');
  }

  lemma PopRefines(order: seq<string>, idle: map<string, Tunnel>, times: map<string, Time>)
    requires Represents(order, idle, times) && order != []
    ensures SkipStale(order, idle) == order && Listed(order, idle, times)
    ensures var tail, idle', times' := order[1..], idle - {order[0]}, times - {order[0]};
            && Represents(tail, idle', times') && Listed(tail, idle', times')
            && QueueOf(tail, idle', times') == QueueOf(order, idle, times)[1..]
  {
    var tail, idle', times' := order[1..], idle - {order[0]}, times - {order[0]};
    RepresentedIsListed(order, idle, times);
    ElementsIn(tail);
    RepresentedIsListed(tail, idle', times');
  }

  // ---------------------------------------------------------------------------------------------
  // What callers see of a tunnel
  // ---------------------------------------------------------------------------------------------

  datatype Vitals = Vitals(state: TunnelState, done: bool, failed: bool)

  datatype ProbeResult = NoProber | Alive | Unsupported | ProbeCancelled | Dead

  datatype Reason =
    | TTLExpired | MissingInsertedAt | BrokenState | StateMismatch | DoneClosed | RuntimeError | ProbeFailed

  function RuntimeReason(v: Vitals): Option<Reason> {
    if v.state == Broken then Some(BrokenState)
    else if v.state != Idle then Some(StateMismatch)
    else if v.done then Some(DoneClosed)
    else if v.failed then Some(RuntimeError)
    else None
  }

  /** What Acquire observes of one tunnel, in order; `cancelled` is the caller's context after the probe. */
  datatype Sight = Sight(first: Vitals, probe: ProbeResult, afterProbe: Vitals, cancelled: bool, last: Vitals)

  function AcquireReason(sight: Sight): Option<Reason> {
    if RuntimeReason(sight.first).Some? then RuntimeReason(sight.first)
    else if sight.probe != Dead then None
    else if RuntimeReason(sight.afterProbe).Some? then RuntimeReason(sight.afterProbe)
    else Some(ProbeFailed)
  }

  /** The tunnel is closed instead of handed out. */
  predicate Unfit(sight: Sight) {
    AcquireReason(sight).Some? || (!sight.cancelled && RuntimeReason(sight.last).Some?)
  }

  /** What a tunnel must look like to be handed out. */
  predicate Healthy(v: Vitals) {
    v.state == Idle && !v.done && !v.failed
  }

  /** A tunnel is closed exactly if it was seen unhealthy before or after its probe, or the probe found it dead. */
  lemma UnfitExactly(sight: Sight)
    ensures Unfit(sight)
       <==> !Healthy(sight.first) || sight.probe == Dead || (!sight.cancelled && !Healthy(sight.last))
  {
  }

  function ZombieReason(entry: Entry, sight: Sight, now: Time, ttl: int): Option<Reason> {
    if RuntimeReason(sight.first).Some? then RuntimeReason(sight.first)
    else if ttl > 0 && entry.insertedAt == 0 then Some(MissingInsertedAt)
    else if ttl > 0 && now - entry.insertedAt >= ttl then Some(TTLExpired)
    else if sight.probe == Dead then Some(ProbeFailed)
    else None
  }

  predicate Zombie(entry: Entry, look: Tunnel -> Sight, now: Time, ttl: int) {
    ZombieReason(entry, look(entry.tunnel), now, ttl).Some?
  }

  /** Old enough to go, or without a time although there is a limit. */
  predicate Overdue(entry: Entry, now: Time, ttl: int) {
    ttl > 0 && (entry.insertedAt == 0 || now >= entry.insertedAt + ttl)
  }

  /** A sweep takes a tunnel for a zombie exactly if it sees it unhealthy, or overdue, or its probe finds it dead. */
  lemma ZombieExactly(entry: Entry, look: Tunnel -> Sight, now: Time, ttl: int)
    ensures var sight := look(entry.tunnel);
            Zombie(entry, look, now, ttl) <==> !Healthy(sight.first) || sight.probe == Dead || Overdue(entry, now, ttl)
  {
  }

  function CandidateOf(entry: Entry): Candidate {
    Candidate(Key(entry.tunnel), entry.insertedAt)
  }

  /** The candidates among the entries that a sweep has looked at. */
  function ZombiesAmong(entries: seq<Entry>, look: Tunnel -> Sight, now: Time, ttl: int): seq<Candidate> {
    if entries == [] then []
    else
      ZombiesAmong(entries[..|entries| - 1], look, now, ttl)
      + (if Zombie(entries[|entries| - 1], look, now, ttl) then [CandidateOf(entries[|entries| - 1])] else [])
  }

  /** The tunnels that a sweep leaves, in order. */
  function Living(queue: seq<Entry>, look: Tunnel -> Sight, now: Time, ttl: int): seq<Entry> {
    if queue == [] then []
    else (if Zombie(queue[0], look, now, ttl) then [] else [queue[0]]) + Living(queue[1..], look, now, ttl)
  }

  /** Of the queue stay exactly the tunnels that are healthy, not overdue and not found dead. */
  lemma {:induction false} LivingExactly(queue: seq<Entry>, look: Tunnel -> Sight, now: Time, ttl: int, entry: Entry)
    ensures entry in Living(queue, look, now, ttl) <==>
              && entry in queue && Healthy(look(entry.tunnel).first) && look(entry.tunnel).probe != Dead
              && !Overdue(entry, now, ttl)
  {
    if queue != [] {
      LivingExactly(queue[1..], look, now, ttl, entry);
      ZombieExactly(queue[0], look, now, ttl);
      assert entry in queue <==> entry == queue[0] || entry in queue[1..];
    }
  }

  lemma {:induction false} YoungerExactly(queue: seq<Entry>, now: Time, ttl: int, entry: Entry)
    requires ttl > 0
    ensures entry in Younger(queue, now, ttl) <==> entry in queue && !Overdue(entry, now, ttl)
  {
    if queue != [] {
      YoungerExactly(queue[1..], now, ttl, entry);
      assert entry in queue <==> entry == queue[0] || entry in queue[1..];
    }
  }

  lemma {:induction false} ZombieCandidates(entries: seq<Entry>, look: Tunnel -> Sight, now: Time, ttl: int,
                                            candidate: Candidate)
    ensures candidate in ZombiesAmong(entries, look, now, ttl)
            <==> exists i :: && 0 <= i < |entries| && CandidateOf(entries[i]) == candidate
                             && Zombie(entries[i], look, now, ttl)
  {
    if entries != [] {
      var front, last := entries[..|entries| - 1], |entries| - 1;
      ZombieCandidates(front, look, now, ttl, candidate);
      forall i | 0 <= i < |entries| && CandidateOf(entries[i]) == candidate && Zombie(entries[i], look, now, ttl)
        ensures candidate in ZombiesAmong(entries, look, now, ttl)
      {
        if i < last {
          assert front[i] == entries[i];
        }
      }
      if candidate in ZombiesAmong(front, look, now, ttl) {
        var i :| 0 <= i < |front| && CandidateOf(front[i]) == candidate && Zombie(front[i], look, now, ttl);
        assert front[i] == entries[i];
      } else if candidate in ZombiesAmong(entries, look, now, ttl) {
        assert CandidateOf(entries[last]) == candidate && Zombie(entries[last], look, now, ttl);
      }
    }
  }

  lemma KeyIn(queue: seq<Entry>, i: nat)
    requires i < |queue|
    ensures Key(queue[i].tunnel) in QueueKeys(queue)
  {
    if i > 0 {
      KeyIn(queue[1..], i - 1);
    }
  }

  lemma {:induction false} SameKeySameEntry(queue: seq<Entry>, i: nat, j: nat)
    requires i < |queue| && j < |queue| && DistinctKeys(queue) && Key(queue[i].tunnel) == Key(queue[j].tunnel)
    ensures i == j
  {
    if i == 0 && j > 0 {
      KeyIn(queue[1..], j - 1);
    } else if j == 0 && i > 0 {
      KeyIn(queue[1..], i - 1);
    } else if i > 0 {
      SameKeySameEntry(queue[1..], i - 1, j - 1);
    }
  }

  /** An entry is dropped exactly if it is a zombie: a candidate with its key and time can only be itself. */
  lemma DropsZombies(queue: seq<Entry>, entries: seq<Entry>, look: Tunnel -> Sight, now: Time, ttl: int, i: nat)
    requires DistinctKeys(queue) && (forall e :: e in entries <==> e in queue) && i < |queue|
    ensures CandidateOf(queue[i]) in ZombiesAmong(entries, look, now, ttl) <==> Zombie(queue[i], look, now, ttl)
  {
    ZombieCandidates(entries, look, now, ttl, CandidateOf(queue[i]));
    assert queue[i] in entries;
    forall k | 0 <= k < |entries| && CandidateOf(entries[k]) == CandidateOf(queue[i]) ensures entries[k] == queue[i] {
      assert entries[k] in queue;
      var j :| 0 <= j < |queue| && queue[j] == entries[k];
      SameKeySameEntry(queue, i, j);
    }
  }

  lemma {:induction false} KeepLiving(queue: seq<Entry>, candidates: seq<Candidate>, look: Tunnel -> Sight, now: Time,
                                      ttl: int)
    requires DistinctKeys(queue)
    requires forall i :: 0 <= i < |queue| ==>
               (CandidateOf(queue[i]) in candidates <==> Zombie(queue[i], look, now, ttl))
    ensures Keep(queue, CandidateKeys(queue, candidates)) == Living(queue, look, now, ttl)
  {
    if queue != [] {
      var tail := queue[1..];
      assert forall i :: 0 <= i < |tail| ==> tail[i] == queue[i + 1];
      KeepLiving(tail, candidates, look, now, ttl);
      CandidatesAreQueued(tail, candidates);
      assert CandidateOf(queue[0]) in candidates <==> Zombie(queue[0], look, now, ttl);
      KeepDependsOn(tail, CandidateKeys(queue, candidates), CandidateKeys(tail, candidates));
    }
  }

  /** A sweep of the whole queue leaves exactly the tunnels that are not zombies, in their order. */
  lemma SweepKeepsLiving(queue: seq<Entry>, entries: seq<Entry>, look: Tunnel -> Sight, now: Time, ttl: int)
    requires DistinctKeys(queue) && forall e :: e in entries <==> e in queue
    ensures Keep(queue, CandidateKeys(queue, ZombiesAmong(entries, look, now, ttl))) == Living(queue, look, now, ttl)
  {
    forall i | 0 <= i < |queue|
      ensures CandidateOf(queue[i]) in ZombiesAmong(entries, look, now, ttl) <==> Zombie(queue[i], look, now, ttl)
    {
      DropsZombies(queue, entries, look, now, ttl, i);
    }
    KeepLiving(queue, ZombiesAmong(entries, look, now, ttl), look, now, ttl);
  }

  lemma {:induction false} CandidateKeysAre(queue: seq<Entry>, candidates: seq<Candidate>, key: string)
    returns (i: nat)
    requires key in CandidateKeys(queue, candidates)
    ensures i < |queue| && Key(queue[i].tunnel) == key && CandidateOf(queue[i]) in candidates
  {
    if Key(queue[0].tunnel) == key && CandidateOf(queue[0]) in candidates {
      i := 0;
    } else {
      i := CandidateKeysAre(queue[1..], candidates, key);
      i := i + 1;
    }
  }

  /** A sweep that is cut short, too, leaves every tunnel that is not a zombie. */
  lemma SweepSparesLiving(queue: seq<Entry>, seen: seq<Entry>, look: Tunnel -> Sight, now: Time, ttl: int, entry: Entry)
    requires DistinctKeys(queue) && forall e :: e in seen ==> e in queue
    requires entry in queue && !Zombie(entry, look, now, ttl)
    ensures entry in Keep(queue, CandidateKeys(queue, ZombiesAmong(seen, look, now, ttl)))
  {
    var candidates := ZombiesAmong(seen, look, now, ttl);
    var at :| 0 <= at < |queue| && queue[at] == entry;
    if Key(entry.tunnel) in CandidateKeys(queue, candidates) {
      var i := CandidateKeysAre(queue, candidates, Key(entry.tunnel));
      SameKeySameEntry(queue, i, at);
      ZombieCandidates(seen, look, now, ttl, CandidateOf(entry));
      var k :| 0 <= k < |seen| && CandidateOf(seen[k]) == CandidateOf(entry) && Zombie(seen[k], look, now, ttl);
      assert seen[k] in queue;
      var j :| 0 <= j < |queue| && queue[j] == seen[k];
      SameKeySameEntry(queue, j, at);
    }
    KeepMembers(queue, CandidateKeys(queue, candidates), entry);
  }

  datatype AcquireResult = Acquired(tunnel: Tunnel) | MustWait(generation: nat) | Aborted

  /** The number of tunnels that Acquire closes: those in front of the first one that is not unfit. */
  function UnfitPrefix(queue: seq<Entry>, look: Tunnel -> Sight): nat {
    if queue == [] || !Unfit(look(queue[0].tunnel)) then 0 else 1 + UnfitPrefix(queue[1..], look)
  }

  lemma {:induction false} UnfitPrefixBounds(queue: seq<Entry>, look: Tunnel -> Sight)
    ensures UnfitPrefix(queue, look) <= |queue|
    ensures forall i :: 0 <= i < UnfitPrefix(queue, look) ==> Unfit(look(queue[i].tunnel))
    ensures UnfitPrefix(queue, look) < |queue| ==> !Unfit(look(queue[UnfitPrefix(queue, look)].tunnel))
  {
    if queue != [] {
      UnfitPrefixBounds(queue[1..], look);
      assert forall i :: 0 < i < |queue| ==> queue[i] == queue[1..][i - 1];
    }
  }

  /**
   Acquire, run alone: closes the unfit tunnels at the front; then hands out the next, or pushes it back, or waits.
   */
  function AcquireSpec(pool: Pool, look: Tunnel -> Sight, now: Time): (Pool, AcquireResult) {
    UnfitPrefixBounds(pool.queue, look);
    var k := UnfitPrefix(pool.queue, look);
    var swept := pool.(closed := pool.closed + k);
    if k == |pool.queue| then (swept.(queue := []), MustWait(pool.generation))
    else
      var entry, rest := pool.queue[k], swept.(queue := pool.queue[k + 1..]);
      if look(entry.tunnel).cancelled then (PushSpec(rest, entry, now), Aborted)
      else (CommitSpec(rest, entry.tunnel), Acquired(entry.tunnel))
  }

  /** Closed by Acquire: seen unhealthy, or found dead by the probe. */
  predicate SeenFaulty(sight: Sight) {
    !Healthy(sight.first) || sight.probe == Dead || !Healthy(sight.last)
  }

  /** Worth handing out before the caller is asked again whether it still wants the tunnel. */
  predicate SeenSound(sight: Sight) {
    Healthy(sight.first) && sight.probe != Dead
  }

  /**
   Every tunnel that Acquire closes was seen not idle, done, failed or dead. The one that it hands out was idle, neither
   done nor failed, at every look, and its probe did not find it dead; it is then in use, and nothing else is. If the
   caller has gone, the tunnel is queued again with the time it had.
   */
  lemma AcquireOutcome(pool: Pool, look: Tunnel -> Sight, now: Time)
    requires DistinctKeys(pool.queue)
    ensures var (next, result) := AcquireSpec(pool, look, now);
            var k := UnfitPrefix(pool.queue, look);
            && k <= |pool.queue| && next.closed == pool.closed + k && next.recycled == pool.recycled
            && (forall i :: 0 <= i < k ==> SeenFaulty(look(pool.queue[i].tunnel)))
            && match result
               case Acquired(tunnel) =>
                 && k < |pool.queue| && tunnel == pool.queue[k].tunnel && next.queue == pool.queue[k + 1..]
                 && SeenSound(look(tunnel)) && Healthy(look(tunnel).last) && !look(tunnel).cancelled
                 && next.inUse == pool.inUse[tunnel.id.raw := tunnel]
               case Aborted =>
                 && k < |pool.queue| && SeenSound(look(pool.queue[k].tunnel)) && look(pool.queue[k].tunnel).cancelled
                 && next.inUse == pool.inUse
                 && (Key(pool.queue[k].tunnel) != "" && pool.queue[k].insertedAt != 0 ==>
                       next.queue == pool.queue[k + 1..] + [pool.queue[k]])
               case MustWait(generation) =>
                 k == |pool.queue| && next.queue == [] && next.inUse == pool.inUse && generation == pool.generation
  {
    var k := UnfitPrefix(pool.queue, look);
    UnfitPrefixBounds(pool.queue, look);
    forall i | 0 <= i < k
      ensures SeenFaulty(look(pool.queue[i].tunnel))
    {
      UnfitExactly(look(pool.queue[i].tunnel));
    }
    if k < |pool.queue| {
      UnfitExactly(look(pool.queue[k].tunnel));
      DistinctAfter(pool.queue, k);
    }
  }

  lemma DistinctAfter(queue: seq<Entry>, k: nat)
    requires k < |queue| && DistinctKeys(queue)
    ensures Key(queue[k].tunnel) !in QueueKeys(queue[k + 1..])
  {
    if k > 0 {
      DistinctAfter(queue[1..], k - 1);
      assert queue[1..][k..] == queue[k + 1..];
    }
  }

  /** A tunnel that looks healthy throughout and that no probe finds dead is never closed. */
  lemma HealthyStays(pool: Pool, look: Tunnel -> Sight, now: Time, i: nat)
    requires i < |pool.queue| && !SeenFaulty(look(pool.queue[i].tunnel))
    ensures UnfitPrefix(pool.queue, look) <= i
  {
    UnfitPrefixBounds(pool.queue, look);
    UnfitExactly(look(pool.queue[i].tunnel));
  }

  /** `put` is the pool after the attempt to put a recyclable tunnel back. */
  lemma FinishContinues(maxIdle: nat, pool: Pool, tunnel: Tunnel, state: TunnelState, now: Time, put: Pool,
                        error: Option<PoolError>)
    ensures PutIdleSpec(maxIdle, pool, tunnel, state, now) == (put, error) ==>
              FinishRecycleSpec(maxIdle, pool, tunnel, false, true, true, state, now)
              == if error.Some? then (put.(closed := put.closed + 1), error)
                 else (put.(recycled := put.recycled + 1), None)
  {
  }

  /** `swept` is the pool after the loop of Acquire; what is left to do is to settle the entry it popped, if any. */
  lemma AcquireContinues(pool: Pool, look: Tunnel -> Sight, now: Time, swept: Pool)
    ensures var k := UnfitPrefix(pool.queue, look);
            && k <= |pool.queue|
            && (k == |pool.queue| && swept == pool.(queue := [], closed := pool.closed + k) ==>
                  AcquireSpec(pool, look, now) == (swept, MustWait(pool.generation)))
            && (k < |pool.queue| && swept == pool.(queue := pool.queue[k + 1..], closed := pool.closed + k) ==>
                  AcquireSpec(pool, look, now) ==
                    if look(pool.queue[k].tunnel).cancelled then (PushSpec(swept, pool.queue[k], now), Aborted)
                    else (CommitSpec(swept, pool.queue[k].tunnel), Acquired(pool.queue[k].tunnel)))
  {
    UnfitPrefixBounds(pool.queue, look);
  }

  /** A tunnel may go into the queue. */
  predicate Welcome(maxIdle: nat, pool: Pool, tunnel: Tunnel, state: TunnelState) {
    && state == Idle && Key(tunnel) != "" && Key(tunnel) !in pool.inUse
    && (Key(tunnel) in QueueKeys(pool.queue) || |pool.queue| < maxIdle)
  }

  /**
   A welcome tunnel takes the place of the queued one with its key, or the end of the queue, where it is announced; the
   others keep their places. Any other is refused for a reason that holds, and nothing changes.
   */
  lemma PutIdleOutcome(maxIdle: nat, pool: Pool, tunnel: Tunnel, state: TunnelState, now: Time)
    ensures var (next, error) := PutIdleSpec(maxIdle, pool, tunnel, state, now);
            var grown := if Key(tunnel) in QueueKeys(pool.queue) then 0 else 1;
            && (error == None <==> Welcome(maxIdle, pool, tunnel, state))
            && (error == None ==>
                  && |next.queue| == |pool.queue| + grown && next.generation == pool.generation + grown
                  && (next.inUse, next.recycled, next.closed) == (pool.inUse, pool.recycled, pool.closed)
                  && forall i :: 0 <= i < |next.queue| ==>
                       next.queue[i] == (if i == |pool.queue| || Key(pool.queue[i].tunnel) == Key(tunnel)
                                         then Entry(tunnel, now) else pool.queue[i]))
            && (error.Some? ==>
                  && next == pool
                  && match error.value
                     case StateTransition => state != Idle
                     case InvalidArgument => Key(tunnel) == ""
                     case TunnelInUse => Key(tunnel) in pool.inUse
                     case PoolExhausted => |pool.queue| >= maxIdle && Key(tunnel) !in QueueKeys(pool.queue)
                     case _ => false)
  {
    forall i | 0 <= i < |pool.queue|
      ensures Key(pool.queue[i].tunnel) in QueueKeys(pool.queue)
    {
      KeyIn(pool.queue, i);
    }
  }

  /**
   A tunnel in use is no longer in use after Recycle: it is counted once, as recycled if the caller has not gone, it is
   recyclable, flushed and welcome in the queue, as closed otherwise. Any other tunnel changes nothing.
   */
  lemma RecycleOutcome(maxIdle: nat, pool: Pool, tunnel: Tunnel, cancelled: bool, recyclable: bool, flushed: bool,
                       state: TunnelState, now: Time)
    ensures var (next, outcome) := RecycleSpec(maxIdle, pool, tunnel, cancelled, recyclable, flushed, state, now);
            if Key(tunnel) == "" || Key(tunnel) !in pool.inUse then
              next == pool && outcome == Some(if Key(tunnel) == "" then InvalidArgument else TunnelNotFound)
            else
              var released := pool.(inUse := pool.inUse - {Key(tunnel)});
              && next.inUse == released.inUse && next.recycled + next.closed == pool.recycled + pool.closed + 1
              && (outcome == None <==> !cancelled && recyclable && flushed && Welcome(maxIdle, released, tunnel, state))
              && (outcome == None <==> next.recycled == pool.recycled + 1)
              && next.queue == (if outcome.Some? then pool.queue
                                else PutIdleSpec(maxIdle, released, tunnel, Idle, now).0.queue)
              && (cancelled ==> outcome == Some(Cancelled))
              && (!cancelled && !recyclable ==> outcome == Some(TunnelBroken))
  {
    PutIdleOutcome(maxIdle, pool.(inUse := pool.inUse - {Key(tunnel)}), tunnel, state, now);
  }

  /** After Remove a nonblank key is nowhere; the other tunnels stay; it succeeds exactly if the key was somewhere. */
  lemma RemoveOutcome(pool: Pool, id: ID)
    ensures var (next, error) := RemoveSpec(pool, id);
            && (id.trimmed == "" ==> next == pool && error == Some(InvalidArgument))
            && (id.trimmed != "" ==>
                  && (forall e :: e in next.queue <==> e in pool.queue && Key(e.tunnel) != id.trimmed)
                  && next.inUse == pool.inUse - {id.trimmed}
                  && error == (if id.trimmed in QueueKeys(pool.queue) + pool.inUse.Keys then None
                               else Some(TunnelNotFound)))
            && (next.recycled, next.closed, next.generation) == (pool.recycled, pool.closed, pool.generation)
  {
    forall e: Entry
      ensures e in Keep(pool.queue, {id.trimmed}) <==> e in pool.queue && Key(e.tunnel) != id.trimmed
    {
      KeepMembers(pool.queue, {id.trimmed}, e);
    }
    if id.trimmed !in QueueKeys(pool.queue) {
      KeepNothing(pool.queue, {id.trimmed});
    }
    if id.trimmed !in pool.inUse {
      assert pool.inUse - {id.trimmed} == pool.inUse;
    }
  }

  /** Run alone, no operation takes the queue past the limit: a tunnel that goes back leaves a place of its own. */
  lemma LimitHoldsAlone(maxIdle: nat, pool: Pool, tunnel: Tunnel, state: TunnelState, now: Time, look: Tunnel -> Sight,
                        id: ID, cancelled: bool, recyclable: bool, flushed: bool)
    requires |pool.queue| <= maxIdle
    ensures |PutIdleSpec(maxIdle, pool, tunnel, state, now).0.queue| <= maxIdle
    ensures |AcquireSpec(pool, look, now).0.queue| <= maxIdle
    ensures |RecycleSpec(maxIdle, pool, tunnel, cancelled, recyclable, flushed, state, now).0.queue| <= maxIdle
    ensures |RemoveSpec(pool, id).0.queue| <= maxIdle
  {
    UnfitPrefixBounds(pool.queue, look);
    KeepKeys(pool.queue, {id.trimmed});
  }

  // ---------------------------------------------------------------------------------------------
  // The pool object; each method holds the mutex throughout, or runs without interference
  // ---------------------------------------------------------------------------------------------

  class InMemoryTunnelPool {
    const maxIdleTunnels: nat
    const idleTunnelTTL: int
    var idleTunnelsByID: map<string, Tunnel>
    var inUseTunnelsByID: map<string, Tunnel>
    var idleTunnelOrder: seq<string>
    var idleInsertedAt: map<string, Time>
    var recycledCount: nat
    var closedCount: nat
    var notifyGeneration: nat

    ghost predicate Valid()
      reads `idleTunnelOrder, `idleTunnelsByID, `idleInsertedAt
    {
      Represents(idleTunnelOrder, idleTunnelsByID, idleInsertedAt)
    }

    ghost function Queue(): seq<Entry>
      requires Valid()
      reads `idleTunnelOrder, `idleTunnelsByID, `idleInsertedAt
    {
      RepresentedIsListed(idleTunnelOrder, idleTunnelsByID, idleInsertedAt);
      QueueOf(idleTunnelOrder, idleTunnelsByID, idleInsertedAt)
    }

    ghost function Current(): Pool
      requires Valid()
      reads this
    {
      Pool(Queue(), inUseTunnelsByID, recycledCount, closedCount, notifyGeneration)
    }

    constructor (maxIdleTunnels: nat, idleTunnelTTL: nat)
      ensures Valid() && Current() == Pool([], map[], 0, 0, 0)
      ensures this.maxIdleTunnels == maxIdleTunnels && this.idleTunnelTTL == idleTunnelTTL
    {
      this.maxIdleTunnels, this.idleTunnelTTL := maxIdleTunnels, idleTunnelTTL;
      idleTunnelsByID, inUseTunnelsByID, idleTunnelOrder, idleInsertedAt := map[], map[], [], map[];
      recycledCount, closedCount, notifyGeneration := 0, 0, 0;
    }

    method PutIdle(tunnel: Tunnel, state: TunnelState, now: Time) returns (error: Option<PoolError>)
      requires Valid()
      modifies this`idleTunnelsByID, this`idleTunnelOrder, this`idleInsertedAt, this`notifyGeneration
      ensures Valid()
      ensures error == PutIdleSpec(maxIdleTunnels, old(Current()), tunnel, state, now).1
      ensures Current() == PutIdleSpec(maxIdleTunnels, old(Current()), tunnel, state, now).0
    {
      if state != Idle {
        return Some(StateTransition);
      }
      var tunnelID := Key(tunnel);
      if tunnelID == "" {
        return Some(InvalidArgument);
      }
      if tunnelID in inUseTunnelsByID {
        return Some(TunnelInUse);
      }
      RepresentedKeys(idleTunnelOrder, idleTunnelsByID, idleInsertedAt);
      var existsInIdlePool := tunnelID in idleTunnelsByID;
      if !existsInIdlePool && |idleTunnelsByID| >= maxIdleTunnels {
        return Some(PoolExhausted);
      }
      if existsInIdlePool {
        RefreshIdle(tunnel, now);
      } else {
        AppendIdle(tunnel, now);
      }
      error := None;
    }

    method AppendIdle(tunnel: Tunnel, insertedAt: Time)
      requires Valid() && Key(tunnel) != "" && Key(tunnel) !in idleTunnelsByID
      modifies this`idleTunnelsByID, this`idleTunnelOrder, this`idleInsertedAt, this`notifyGeneration
      ensures Valid()
      ensures Current() == old(Current()).(queue := old(Current()).queue + [Entry(tunnel, insertedAt)],
                                           generation := old(Current()).generation + 1)
    {
      AppendRefines(idleTunnelOrder, idleTunnelsByID, idleInsertedAt, tunnel, insertedAt);
      idleTunnelOrder, idleTunnelsByID, idleInsertedAt, notifyGeneration :=
        idleTunnelOrder + [Key(tunnel)], idleTunnelsByID[Key(tunnel) := tunnel],
        idleInsertedAt[Key(tunnel) := insertedAt],
        notifyGeneration + 1;
    }

    method RefreshIdle(tunnel: Tunnel, insertedAt: Time)
      requires Valid() && Key(tunnel) in idleTunnelsByID
      modifies this`idleTunnelsByID, this`idleInsertedAt
      ensures Valid()
      ensures Current() == old(Current()).(queue := Replace(old(Current()).queue, Entry(tunnel, insertedAt)))
    {
      ReplaceRefines(idleTunnelOrder, idleTunnelsByID, idleInsertedAt, tunnel, insertedAt);
      idleTunnelsByID := idleTunnelsByID[Key(tunnel) := tunnel];
      idleInsertedAt := idleInsertedAt[Key(tunnel) := insertedAt];
    }

    /** The oldest entry; the keys that the loop would skip as stale do not exist. */
    method PopIdle() returns (entry: Option<Entry>)
      requires Valid()
      modifies this`idleTunnelsByID, this`idleTunnelOrder, this`idleInsertedAt
      ensures Valid()
      ensures old(Queue()) == [] ==> entry == None && Queue() == []
      ensures old(Queue()) != [] ==> entry == Some(old(Queue())[0]) && Queue() == old(Queue())[1..]
      ensures old(SkipStale(idleTunnelOrder, idleTunnelsByID)) == old(idleTunnelOrder)
    {
      if idleTunnelOrder != [] {
        PopRefines(idleTunnelOrder, idleTunnelsByID, idleInsertedAt);
      }
      entry := PopFirstExisting();
    }

    /** The loop of popIdleLocked, for any maps and any order list. */
    method PopFirstExisting() returns (entry: Option<Entry>)
      modifies this`idleTunnelsByID, this`idleTunnelOrder, this`idleInsertedAt
      ensures var rest := old(SkipStale(idleTunnelOrder, idleTunnelsByID));
              if rest == [] then
                entry == None && idleTunnelOrder == []
                && idleTunnelsByID == old(idleTunnelsByID) && idleInsertedAt == old(idleInsertedAt)
              else
                && rest[0] in old(idleTunnelsByID)
                && entry == Some(Entry(old(idleTunnelsByID)[rest[0]],
                                       if rest[0] in old(idleInsertedAt) then old(idleInsertedAt)[rest[0]] else 0))
                && idleTunnelOrder == rest[1..]
                && idleTunnelsByID == old(idleTunnelsByID) - {rest[0]}
                && idleInsertedAt == old(idleInsertedAt) - {rest[0]}
    {
      while |idleTunnelOrder| > 0
        invariant idleTunnelsByID == old(idleTunnelsByID) && idleInsertedAt == old(idleInsertedAt)
        invariant SkipStale(idleTunnelOrder, idleTunnelsByID) == old(SkipStale(idleTunnelOrder, idleTunnelsByID))
        decreases |idleTunnelOrder|
      {
        var tunnelID := idleTunnelOrder[0];
        idleTunnelOrder := idleTunnelOrder[1..];
        if tunnelID !in idleTunnelsByID {
          continue;
        }
        var insertedAt := if tunnelID in idleInsertedAt then idleInsertedAt[tunnelID] else 0;
        entry := Some(Entry(idleTunnelsByID[tunnelID], insertedAt));
        idleTunnelsByID := idleTunnelsByID - {tunnelID};
        idleInsertedAt := idleInsertedAt - {tunnelID};
        return;
      }
      entry := None;
    }

    method PushIdle(entry: Entry, now: Time)
      requires Valid()
      modifies this`idleTunnelsByID, this`idleTunnelOrder, this`idleInsertedAt, this`notifyGeneration
      ensures Valid() && Current() == PushSpec(old(Current()), entry, now)
    {
      var tunnelID := Key(entry.tunnel);
      if tunnelID == "" {
        return;
      }
      RepresentedKeys(idleTunnelOrder, idleTunnelsByID, idleInsertedAt);
      if tunnelID in idleTunnelsByID {
        return;
      }
      var insertedAt := if entry.insertedAt == 0 then now else entry.insertedAt;
      AppendIdle(entry.tunnel, insertedAt);
    }

    method RemoveIdleOrder(tunnelID: string)
      modifies this`idleTunnelOrder
      ensures idleTunnelOrder == RemoveFirst(old(idleTunnelOrder), tunnelID)
    {
      var index := 0;
      while index < |idleTunnelOrder|
        invariant index <= |idleTunnelOrder| && idleTunnelOrder == old(idleTunnelOrder)
        invariant tunnelID !in idleTunnelOrder[..index]
      {
        if idleTunnelOrder[index] != tunnelID {
          index := index + 1;
          continue;
        }
        RemoveFirstAt(idleTunnelOrder, tunnelID, index);
        idleTunnelOrder := idleTunnelOrder[..index] + idleTunnelOrder[index + 1..];
        return;
      }
      RemoveFirstAbsent(idleTunnelOrder, tunnelID);
    }

    /** Deletes a tunnel from the maps and the order list if it is idle. */
    method DeleteIdle(tunnelID: string) returns (deleted: bool)
      requires Valid()
      modifies this`idleTunnelsByID, this`idleTunnelOrder, this`idleInsertedAt
      ensures Valid() && Queue() == Keep(old(Queue()), {tunnelID})
      ensures deleted <==> tunnelID in QueueKeys(old(Queue()))
    {
      RepresentedKeys(idleTunnelOrder, idleTunnelsByID, idleInsertedAt);
      if tunnelID !in idleTunnelsByID {
        KeepNothing(Queue(), {tunnelID});
        return false;
      }
      DeleteRefines(idleTunnelOrder, idleTunnelsByID, idleInsertedAt, tunnelID);
      idleTunnelsByID, idleInsertedAt := idleTunnelsByID - {tunnelID}, idleInsertedAt - {tunnelID};
      RemoveIdleOrder(tunnelID);
      deleted := true;
    }

    method Remove(id: ID) returns (error: Option<PoolError>)
      requires Valid()
      modifies this
      ensures Valid()
      ensures error == RemoveSpec(old(Current()), id).1 && Current() == RemoveSpec(old(Current()), id).0
    {
      var tunnelID := id.trimmed;
      if tunnelID == "" {
        return Some(InvalidArgument);
      }
      var removedFromIdle := DeleteIdle(tunnelID);
      var removedFromInUse := tunnelID in inUseTunnelsByID;
      if removedFromInUse {
        inUseTunnelsByID := inUseTunnelsByID - {tunnelID};
      } else {
        KeepKeys(old(Queue()), {tunnelID});
        assert inUseTunnelsByID == inUseTunnelsByID - {tunnelID};
      }
      if !removedFromIdle && !removedFromInUse {
        KeepNothing(old(Queue()), {tunnelID});
        return Some(TunnelNotFound);
      }
      error := None;
    }

    /** One round of the loop of Acquire: a tunnel is taken from the queue, and closed if it is unfit. */
    method PopOne(look: Tunnel -> Sight) returns (entry: Option<Entry>, unfit: bool)
      requires Valid()
      modifies this`idleTunnelsByID, this`idleTunnelOrder, this`idleInsertedAt, this`closedCount
      ensures Valid()
      ensures old(Queue()) == [] ==> entry == None && Queue() == [] && closedCount == old(closedCount)
      ensures old(Queue()) != [] ==>
                entry == Some(old(Queue())[0]) && Queue() == old(Queue())[1..]
                && unfit == Unfit(look(entry.value.tunnel))
                && closedCount == old(closedCount) + if unfit then 1 else 0
    {
      entry := PopIdle();
      unfit := false;
      if entry.Some? {
        var sight := look(entry.value.tunnel);
        if AcquireReason(sight).Some? {
          unfit := true;
        } else if !sight.cancelled {
          unfit := RuntimeReason(sight.last).Some?;
        }
        if unfit {
          closedCount := closedCount + 1;
        }
      }
    }

    /** The loop of Acquire: closes tunnels until one is fit, or the caller has gone, or none is left. */
    method PopFit(look: Tunnel -> Sight) returns (entry: Option<Entry>, ghost closed: seq<Entry>)
      requires Valid()
      modifies this`idleTunnelsByID, this`idleTunnelOrder, this`idleInsertedAt, this`closedCount
      ensures Valid() && UnfitPrefix(old(Queue()), look) <= |old(Queue())|
      ensures closed == old(Queue())[..UnfitPrefix(old(Queue()), look)] && closedCount == old(closedCount) + |closed|
      ensures if closed == old(Queue()) then entry == None && Queue() == []
              else entry == Some(old(Queue())[|closed|]) && Queue() == old(Queue())[|closed| + 1..]
    {
      ghost var queue, n := Queue(), 0;
      UnfitPrefixBounds(queue, look);
      while true
        invariant Valid() && n <= UnfitPrefix(queue, look)
        invariant Queue() == queue[n..] && closedCount == old(closedCount) + n
        decreases |queue| - n
      {
        var unfit;
        entry, unfit := PopOne(look);
        if entry.None? || !unfit {
          closed := queue[..n];
          return;
        }
        n := n + 1;
      }
    }

    method Acquire(look: Tunnel -> Sight, now: Time) returns (result: AcquireResult, ghost closed: seq<Entry>)
      requires Valid()
      modifies this
      ensures Valid()
      ensures Current() == AcquireSpec(old(Current()), look, now).0
      ensures result == AcquireSpec(old(Current()), look, now).1
      ensures UnfitPrefix(old(Queue()), look) <= |old(Queue())|
      ensures closed == old(Queue())[..UnfitPrefix(old(Queue()), look)]
    {
      ghost var before := Current();
      var popped;
      popped, closed := PopFit(look);
      AcquireContinues(before, look, now, Current());
      if popped.None? {
        return MustWait(notifyGeneration), closed;
      }
      result := Settle(popped.value, look(popped.value.tunnel).cancelled, now);
    }

    /** The second critical section of Acquire: hands the tunnel out, or puts it back if the caller has gone. */
    method Settle(entry: Entry, cancelled: bool, now: Time) returns (result: AcquireResult)
      requires Valid()
      modifies this
      ensures Valid()
      ensures cancelled ==> result == Aborted && Current() == PushSpec(old(Current()), entry, now)
      ensures !cancelled ==> result == Acquired(entry.tunnel) && Current() == CommitSpec(old(Current()), entry.tunnel)
    {
      if cancelled {
        PushIdle(entry, now);
        return Aborted;
      }
      inUseTunnelsByID := inUseTunnelsByID[entry.tunnel.id.raw := entry.tunnel];
      result := Acquired(entry.tunnel);
    }

    /**
     `outcome` is None if the tunnel went back to the queue; the caller sees no error either if it was not recyclable.
     */
    method Recycle(tunnel: Tunnel, cancelled: bool, recyclable: bool, flushed: bool, state: TunnelState, now: Time)
      returns (outcome: Option<PoolError>)
      requires Valid()
      modifies this
      ensures Valid()
      ensures var spec := RecycleSpec(maxIdleTunnels, old(Current()), tunnel, cancelled, recyclable, flushed, state,
                                      now);
              Current() == spec.0 && outcome == spec.1
    {
      var tunnelID := Key(tunnel);
      if tunnelID == "" {
        return Some(InvalidArgument);
      }
      if tunnelID !in inUseTunnelsByID {
        return Some(TunnelNotFound);
      }
      inUseTunnelsByID := inUseTunnelsByID - {tunnelID};
      outcome := FinishRecycle(tunnel, cancelled, recyclable, flushed, state, now);
    }

    method FinishRecycle(tunnel: Tunnel, cancelled: bool, recyclable: bool, flushed: bool, state: TunnelState,
                         now: Time)
      returns (outcome: Option<PoolError>)
      requires Valid()
      modifies this
      ensures Valid()
      ensures var spec :=
                FinishRecycleSpec(maxIdleTunnels, old(Current()), tunnel, cancelled, recyclable, flushed, state, now);
              Current() == spec.0 && outcome == spec.1
    {
      if cancelled || !recyclable || !flushed {
        closedCount := closedCount + 1;
        return Some(if cancelled then Cancelled else if !recyclable then TunnelBroken else FlushFailed);
      }
      ghost var before := Current();
      outcome := PutIdle(tunnel, state, now);
      FinishContinues(maxIdleTunnels, before, tunnel, state, now, Current(), outcome);
      if outcome.Some? {
        closedCount := closedCount + 1;
        return;
      }
      recycledCount := recycledCount + 1;
    }

    /** One round of the loop of EvictExpiredIdle. */
    method EvictIfExpired(evicted: seq<string>, tunnelID: string, now: Time) returns (evicted': seq<string>)
      requires Valid() && tunnelID in QueueKeys(Queue())
      requires NoDuplicates(evicted) && tunnelID !in Elements(evicted)
      modifies this`idleTunnelsByID, this`idleTunnelOrder, this`idleInsertedAt
      ensures Valid() && NoDuplicates(evicted')
      ensures if tunnelID in ExpiredKeys(old(Queue()), now, idleTunnelTTL)
              then Elements(evicted') == Elements(evicted) + {tunnelID} && Queue() == Keep(old(Queue()), {tunnelID})
              else evicted' == evicted && Queue() == old(Queue())
    {
      ExpiredByTime(idleTunnelOrder, idleTunnelsByID, idleInsertedAt, now, idleTunnelTTL, tunnelID);
      var insertedAt := idleInsertedAt[tunnelID];
      if insertedAt != 0 && now - insertedAt < idleTunnelTTL {
        return evicted;
      }
      ElementsIn(evicted);
      AppendElements(evicted, tunnelID);
      var _ := DeleteIdle(tunnelID);
      evicted' := evicted + [tunnelID];
    }

    method IdleCount() returns (n: nat)
      requires Valid()
      ensures n == |Queue()|
    {
      RepresentedKeys(idleTunnelOrder, idleTunnelsByID, idleInsertedAt);
      n := |idleTunnelsByID|;
    }

    method IdleKeys() returns (keys: set<string>)
      requires Valid()
      ensures keys == QueueKeys(Queue()) && DistinctKeys(Queue()) && |keys| == |Queue()|
    {
      RepresentedKeys(idleTunnelOrder, idleTunnelsByID, idleInsertedAt);
      keys := idleTunnelsByID.Keys;
    }

    /** The state of the loop of EvictExpiredIdle: what is evicted, and the keys that are left to judge. */
    ghost predicate Judging(queue: seq<Entry>, evicted: seq<string>, left: set<string>, now: Time)
      reads `idleTunnelOrder, `idleTunnelsByID, `idleInsertedAt
    {
      && Valid() && Queue() == Keep(queue, Elements(evicted)) && left <= QueueKeys(Queue())
      && NoDuplicates(evicted) && Elements(evicted) == ExpiredKeys(queue, now, idleTunnelTTL) - left
    }

    method Judge(ghost queue: seq<Entry>, evicted: seq<string>, ghost left: set<string>, tunnelID: string, now: Time)
      returns (evicted': seq<string>)
      requires Judging(queue, evicted, left, now) && tunnelID in left
      modifies this`idleTunnelsByID, this`idleTunnelOrder, this`idleInsertedAt
      ensures Judging(queue, evicted', left - {tunnelID}, now)
    {
      NextExpired(queue, Elements(evicted), left, tunnelID, now, idleTunnelTTL);
      evicted' := EvictIfExpired(evicted, tunnelID, now);
    }

    /** Evicts the expired tunnels among those with the given keys. */
    method DeleteExpired(keys: set<string>, now: Time) returns (evicted: seq<string>)
      requires Valid() && keys == QueueKeys(Queue())
      modifies this`idleTunnelsByID, this`idleTunnelOrder, this`idleInsertedAt
      ensures Judging(old(Queue()), evicted, {}, now)
    {
      evicted := [];
      ghost var queue := Queue();
      KeepNothing(queue, {});
      ExpiredAreQueued(queue, now, idleTunnelTTL);
      var left := keys;
      while left != {}
        invariant Judging(queue, evicted, left, now)
        decreases |left|
      {
        var tunnelID :| tunnelID in left;
        evicted := Judge(queue, evicted, left, tunnelID, now);
        left := left - {tunnelID};
      }
    }

    /** Keeps exactly the younger tunnels, in their order, and reports each of the others once. */
    method EvictExpiredIdle(now: Time) returns (evicted: seq<string>)
      requires Valid()
      modifies this`idleTunnelsByID, this`idleTunnelOrder, this`idleInsertedAt, this`closedCount
      ensures Valid()
      ensures idleTunnelTTL <= 0 ==> evicted == [] && Queue() == old(Queue())
      ensures idleTunnelTTL > 0 ==>
                Queue() == Younger(old(Queue()), now, idleTunnelTTL)
                && NoDuplicates(evicted) && Elements(evicted) == ExpiredKeys(old(Queue()), now, idleTunnelTTL)
      ensures closedCount == old(closedCount) + |evicted|
    {
      if idleTunnelTTL <= 0 {
        return [];
      }
      var keys := IdleKeys();
      EvictionKeepsYounger(Queue(), now, idleTunnelTTL);
      evicted := DeleteExpired(keys, now);
      assert Elements(evicted) == ExpiredKeys(old(Queue()), now, idleTunnelTTL);
      closedCount := closedCount + |evicted|;
    }

    /** One round of the second loop of EvictZombieIdle. */
    method EvictIfSame(candidate: Candidate) returns (evicted: Option<Tunnel>)
      requires Valid()
      modifies this`idleTunnelsByID, this`idleTunnelOrder, this`idleInsertedAt
      ensures Valid() && Queue() == Keep(old(Queue()), CandidateKeys(old(Queue()), [candidate]))
      ensures |Queue()| == if evicted.Some? then |old(Queue())| - 1 else |old(Queue())|
      ensures evicted.Some? ==> Key(evicted.value) in CandidateKeys(old(Queue()), [candidate])
    {
      CandidateByTime(idleTunnelOrder, idleTunnelsByID, idleInsertedAt, candidate);
      if candidate.key !in idleTunnelsByID || idleInsertedAt[candidate.key] != candidate.insertedAt {
        return None;
      }
      evicted := Some(idleTunnelsByID[candidate.key]);
      var _ := DeleteIdle(candidate.key);
    }

    /** The second critical section of EvictZombieIdle. */
    method DeleteCandidates(candidates: seq<Candidate>) returns (evicted: seq<Tunnel>)
      requires Valid()
      modifies this`idleTunnelsByID, this`idleTunnelOrder, this`idleInsertedAt
      ensures Valid() && Queue() == Keep(old(Queue()), CandidateKeys(old(Queue()), candidates))
      ensures |evicted| + |Queue()| == |old(Queue())|
    {
      ghost var queue := Queue();
      evicted := [];
      NoCandidates(queue);
      var next := 0;
      while next < |candidates|
        invariant 0 <= next <= |candidates| && Valid()
        invariant Queue() == Keep(queue, CandidateKeys(queue, candidates[..next]))
        invariant |evicted| + |Queue()| == |queue|
      {
        NextCandidate(queue, candidates, next);
        var gone := EvictIfSame(candidates[next]);
        if gone.Some? {
          evicted := evicted + [gone.value];
        }
        next := next + 1;
      }
      assert candidates[..next] == candidates;
    }

    /** What EvictZombieIdle does once it has judged: only tunnels that are still the ones that it has seen go. */
    method EvictCandidates(candidates: seq<Candidate>) returns (evicted: seq<Tunnel>)
      requires Valid()
      modifies this`idleTunnelsByID, this`idleTunnelOrder, this`idleInsertedAt, this`closedCount
      ensures Valid() && Queue() == Keep(old(Queue()), CandidateKeys(old(Queue()), candidates))
      ensures closedCount == old(closedCount) + |evicted| && |evicted| + |Queue()| == |old(Queue())|
    {
      evicted := DeleteCandidates(candidates);
      closedCount := closedCount + |evicted|;
    }

    /** The first critical section of EvictZombieIdle: the idle tunnels and their times, in any order. */
    method Snapshot() returns (entries: seq<Entry>)
      requires Valid()
      ensures forall e :: e in entries <==> e in Queue()
      ensures DistinctKeys(Queue()) && |entries| == |Queue()|
    {
      RepresentedKeys(idleTunnelOrder, idleTunnelsByID, idleInsertedAt);
      ElementsIn(idleTunnelOrder);
      entries := [];
      var left := idleTunnelsByID.Keys;
      while left != {}
        invariant left <= idleTunnelsByID.Keys && |entries| + |left| == |idleTunnelsByID|
        invariant forall e: Entry :: e in entries <==>
                    Key(e.tunnel) in idleTunnelsByID.Keys - left
                    && e == Entry(idleTunnelsByID[Key(e.tunnel)], idleInsertedAt[Key(e.tunnel)])
        decreases |left|
      {
        var tunnelID :| tunnelID in left;
        left := left - {tunnelID};
        entries := entries + [Entry(idleTunnelsByID[tunnelID], idleInsertedAt[tunnelID])];
      }
      QueueByKey(idleTunnelOrder, idleTunnelsByID, idleInsertedAt);
    }

    /** Between the critical sections: judges the tunnels until the context is cancelled. */
    method FindZombies(entries: seq<Entry>, look: Tunnel -> Sight, now: Time, patience: nat)
      returns (candidates: seq<Candidate>)
      ensures var seen := if patience < |entries| then entries[..patience] else entries;
              candidates == ZombiesAmong(seen, look, now, idleTunnelTTL)
    {
      candidates := [];
      var next := 0;
      while next < |entries|
        invariant 0 <= next <= |entries| && next <= patience
        invariant candidates == ZombiesAmong(entries[..next], look, now, idleTunnelTTL)
      {
        if next == patience {
          break;
        }
        assert entries[..next + 1][..next] == entries[..next];
        var reason := ZombieReason(entries[next], look(entries[next].tunnel), now, idleTunnelTTL);
        next := next + 1;
        if reason.None? {
          continue;
        }
        candidates := candidates + [CandidateOf(entries[next - 1])];
      }
      assert next == |entries| ==> entries[..next] == entries;
    }

    /** EvictZombieIdle, run alone: tunnels that are not zombies stay, and no others if it is not cancelled. */
    method EvictZombieIdle(look: Tunnel -> Sight, now: Time, patience: nat) returns (evicted: seq<Tunnel>)
      requires Valid()
      modifies this`idleTunnelsByID, this`idleTunnelOrder, this`idleInsertedAt, this`closedCount
      ensures Valid() && closedCount == old(closedCount) + |evicted| && |evicted| + |Queue()| == |old(Queue())|
      ensures patience >= |old(Queue())| ==> Queue() == Living(old(Queue()), look, now, idleTunnelTTL)
      ensures forall e :: e in old(Queue()) && !Zombie(e, look, now, idleTunnelTTL) ==> e in Queue()
    {
      var entries := Snapshot();
      var candidates := FindZombies(entries, look, now, patience);
      ghost var seen := if patience < |entries| then entries[..patience] else entries;
      forall e | e in Queue() && !Zombie(e, look, now, idleTunnelTTL)
        ensures e in Keep(Queue(), CandidateKeys(Queue(), candidates))
      {
        SweepSparesLiving(Queue(), seen, look, now, idleTunnelTTL, e);
      }
      SweepKeepsLiving(Queue(), entries, look, now, idleTunnelTTL);
      evicted := EvictCandidates(candidates);
    }
  }
}
