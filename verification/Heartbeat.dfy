/**
 Heartbeat monitoring (ltfp/transport/control_heartbeat.go): a peer is dead when enough send windows have been missed.

 Durations are 64-bit nanoseconds that wrap around, as time.Duration does; subtracting two instants saturates, as
 time.Time.Sub does. Instants are unbounded and the zero time is None.
 */
module Heartbeat {
  import opened Basics
  import opened Bytes
  import opened Results

  const DEFAULT_SEND_INTERVAL := 5 * 1_000_000_000
  const DEFAULT_MISS_THRESHOLD := 3

  function Wrap(x: int): int64 {
    (x + 0x8000_0000_0000_0000) % 0x1_0000_0000_0000_0000 - 0x8000_0000_0000_0000
  }

  function Saturate(x: int): int64 {
    if x > MAX_INT64 then MAX_INT64
    else if x < -0x8000_0000_0000_0000 then -0x8000_0000_0000_0000
    else x
  }

  datatype Policy = Policy(sendInterval: int64, missThreshold: int64, queueDelayGrace: int64) {
    predicate Normalized() {
      sendInterval > 0 && missThreshold > 0 && queueDelayGrace > 0
    }

    /** Fails exactly on a negative grace; otherwise fills in the defaults and keeps what was set. */
    function Normalize(): (r: Option<Policy>)
      ensures r.None? <==> queueDelayGrace < 0
      ensures r.Some? ==>
                && r.value.Normalized()
                && Settled(sendInterval, DEFAULT_SEND_INTERVAL, r.value.sendInterval)
                && Settled(missThreshold, DEFAULT_MISS_THRESHOLD, r.value.missThreshold)
                && Settled(queueDelayGrace, r.value.sendInterval, r.value.queueDelayGrace)
      ensures Normalized() ==> r == Some(this)
    {
      var interval := if sendInterval <= 0 then DEFAULT_SEND_INTERVAL else sendInterval;
      if queueDelayGrace < 0 then None
      else
        Some(Policy(interval, if missThreshold <= 0 then DEFAULT_MISS_THRESHOLD else missThreshold,
                    if queueDelayGrace == 0 then interval else queueDelayGrace))
    }

    function FailureTimeout(): int64 {
      match Normalize()
      case None => 0
      case Some(p) => Wrap(Wrap(p.sendInterval * p.missThreshold) + p.queueDelayGrace)
    }
  }

  datatype Status = Status(
    startedAt: Option<int>, lastSentAt: Option<int>, lastReceivedAt: Option<int>,
    nextSendAt: int, failureDeadline: int, consecutiveMisses: int64, dead: bool)

  /** The monitor's three timestamps. */
  datatype MonitorState = MonitorState(startedAt: Option<int>, lastSentAt: Option<int>, lastReceivedAt: Option<int>)

  /** The instant the failure timeout counts from. */
  function Reference(m: MonitorState): int
    requires m.startedAt.Some?
  {
    if m.lastReceivedAt.Some? then m.lastReceivedAt.value else m.startedAt.value
  }

  function FirstMissAt(policy: Policy, reference: int): int {
    reference + Wrap(policy.sendInterval + policy.queueDelayGrace)
  }

  function Misses(policy: Policy, reference: int, now: int): int64
    requires policy.Normalized()
  {
    if now < FirstMissAt(policy, reference) then 0
    else Wrap(1 + Saturate(now - FirstMissAt(policy, reference)) / policy.sendInterval)
  }

  /** None stands for the zero status of a monitor that has not started. */
  function Snapshot(policy: Policy, m: MonitorState, now: int): Option<Status>
    requires policy.Normalized()
  {
    if m.startedAt.None? then None
    else
      var nextSendBase := if m.lastSentAt.Some? then m.lastSentAt.value else m.startedAt.value;
      var misses := Misses(policy, Reference(m), now);
      Some(Status(m.startedAt, m.lastSentAt, m.lastReceivedAt, nextSendBase + policy.sendInterval,
                  Reference(m) + policy.FailureTimeout(), misses, misses >= policy.missThreshold))
  }

  // ---------------------------------------------------------------------------------------------
  // Counting windows against one deadline
  // ---------------------------------------------------------------------------------------------

  lemma DivisionBounds(x: nat, y: nat)
    requires y > 0
    ensures x / y * y <= x < x / y * y + y
  {
  }

  lemma QuotientAtLeast(x: nat, y: nat, n: nat)
    requires y > 0
    ensures x / y >= n <==> x >= n * y
  {
    var q := x / y;
    DivisionBounds(x, y);
    if q >= n {
      MultiplyMonotone(n, q, y);
    } else {
      MultiplyMonotone(q + 1, n, y);
      assert (q + 1) * y == q * y + y;
    }
  }

  /** A quotient never exceeds what is divided, and reaches it only for the divisor one. */
  lemma QuotientBelow(x: nat, y: nat)
    requires y > 0
    ensures 0 <= x / y <= x
    ensures y == 1 ==> x / y == x
    ensures y > 1 && x > 0 ==> x / y < x
  {
    DivisionBounds(x, y);
    if y > 1 && x > 0 {
      QuotientAtLeast(x, y, x);
      MultiplyMonotone(2, y, x);
    } else if y > 1 {
      QuotientAtLeast(x, y, 1);
    }
  }

  lemma WrapInRange(x: int)
    requires -0x8000_0000_0000_0000 <= x <= MAX_INT64
    ensures Wrap(x) == x
  {
  }

  lemma WrapAbove(x: int)
    requires MAX_INT64 < x <= MAX_INT64 + 0x1_0000_0000_0000_0000
    ensures Wrap(x) == x - 0x1_0000_0000_0000_0000
  {
  }

  lemma WrapAdds(x: int, y: int)
    ensures Wrap(Wrap(x) + y) == Wrap(x + y)
  {
  }

  /** The miss count without wrap-around reaches the threshold when the windows after the first miss have passed. */
  lemma CountReaches(late: int64, interval: int64, threshold: int64)
    requires 0 <= late && interval > 0 && threshold > 0
    ensures 1 + late / interval >= threshold <==> late >= (threshold - 1) * interval
    ensures 1 <= 1 + late / interval <= MAX_INT64 + 1
    ensures 1 + late / interval == MAX_INT64 + 1 <==> interval == 1 && late == MAX_INT64
  {
    QuotientAtLeast(late, interval, threshold - 1);
    QuotientBelow(late, interval);
  }

  /** The whole time that missed windows take after the first miss. */
  function Windows(policy: Policy): int {
    (policy.missThreshold - 1) * policy.sendInterval
  }

  /** When the count is high enough: the windows must fit 64 bits, and a one-nanosecond interval overflows the count. */
  lemma DeadWhen(policy: Policy, reference: int, now: int)
    requires policy.Normalized()
    ensures var since := now - FirstMissAt(policy, reference);
            Misses(policy, reference, now) >= policy.missThreshold
            <==> && since >= Windows(policy) && Windows(policy) <= MAX_INT64
                 && !(policy.sendInterval == 1 && since >= MAX_INT64)
    ensures Windows(policy) >= 0
  {
    var interval, threshold := policy.sendInterval, policy.missThreshold;
    var since := now - FirstMissAt(policy, reference);
    MultiplyMonotone(0, threshold - 1, interval);
    if since >= 0 {
      var late := Saturate(since);
      CountReaches(late, interval, threshold);
      var missed: int := late / interval;
      var count := 1 + missed;
      if count > MAX_INT64 {
        WrapAbove(count);
      } else {
        WrapInRange(count);
      }
    }
  }

  /** As long as nothing overflows, the count is the number of whole windows missed since the grace was over. */
  lemma MissesAreWindows(policy: Policy, reference: int, now: int)
    requires policy.Normalized() && policy.sendInterval > 1 && policy.sendInterval + policy.queueDelayGrace <= MAX_INT64
    requires now - FirstMissAt(policy, reference) <= MAX_INT64
    ensures var n, over := Misses(policy, reference, now), reference + policy.queueDelayGrace;
            && n >= 0 && (n == 0 <==> now < over + policy.sendInterval)
            && (n > 0 ==> over + n * policy.sendInterval <= now < over + n * policy.sendInterval + policy.sendInterval)
  {
    WrapInRange(policy.sendInterval + policy.queueDelayGrace);
    var since := now - FirstMissAt(policy, reference);
    if since >= 0 {
      var missed: nat := since / policy.sendInterval;
      DivisionBounds(since, policy.sendInterval);
      QuotientBelow(since, policy.sendInterval);
      WrapInRange(1 + missed);
      assert (1 + missed) * policy.sendInterval == missed * policy.sendInterval + policy.sendInterval;
    }
  }

  /** No 64-bit quantity of the policy overflows, except that the two sums may both wrap once and cancel out. */
  predicate Consistent(policy: Policy) {
    && policy.sendInterval > 1
    && Windows(policy) <= MAX_INT64
    && (Windows(policy) + policy.sendInterval + policy.queueDelayGrace <= MAX_INT64
        || policy.sendInterval + policy.queueDelayGrace > MAX_INT64)
  }

  lemma WindowsPlusOne(policy: Policy)
    ensures policy.missThreshold * policy.sendInterval == Windows(policy) + policy.sendInterval
    ensures policy.sendInterval * policy.missThreshold == Windows(policy) + policy.sendInterval
  {
  }

  /** The failure timeout in terms of the first miss and the windows after it. */
  lemma TimeoutIs(policy: Policy)
    requires policy.Normalized()
    ensures policy.FailureTimeout() == Wrap(Windows(policy) + policy.sendInterval + policy.queueDelayGrace)
  {
    WindowsPlusOne(policy);
    WrapAdds(policy.sendInterval * policy.missThreshold, policy.queueDelayGrace);
  }

  /** Both sums wrap together or not at all, so the first miss and the deadline are `windows` apart. */
  lemma SameWrap(windows: int, first: int)
    requires 0 <= windows <= MAX_INT64 && 0 < first <= 2 * MAX_INT64
    requires windows + first <= MAX_INT64 || first > MAX_INT64
    ensures Wrap(windows + first) == windows + Wrap(first)
  {
    if first > MAX_INT64 {
      WrapAbove(first);
      WrapAbove(windows + first);
    } else {
      WrapInRange(first);
      WrapInRange(windows + first);
    }
  }

  lemma AgreeWhenConsistent(policy: Policy, reference: int, now: int)
    requires policy.Normalized() && Consistent(policy)
    ensures Misses(policy, reference, now) >= policy.missThreshold <==> now >= reference + policy.FailureTimeout()
  {
    TimeoutIs(policy);
    DeadWhen(policy, reference, now);
    SameWrap(Windows(policy), policy.sendInterval + policy.queueDelayGrace);
  }

  lemma DisagreeOtherwise(policy: Policy, reference: int) returns (now: int)
    requires policy.Normalized() && !Consistent(policy)
    ensures Misses(policy, reference, now) < policy.missThreshold && now >= reference + policy.FailureTimeout()
  {
    if policy.sendInterval == 1 {
      now := reference + 2 * MAX_INT64 + 1;
    } else {
      now := reference + policy.FailureTimeout();
      if Windows(policy) <= MAX_INT64 {
        TimeoutIs(policy);
        WrapInRange(policy.sendInterval + policy.queueDelayGrace);
      }
    }
    DeadWhen(policy, reference, now);
  }

  /**
   The count of missed windows and the single deadline agree at every instant exactly for the consistent policies;
   for any other policy there is an instant past the deadline at which the peer still counts as alive.
   */
  lemma DeadMeansDeadline(policy: Policy, reference: int)
    requires policy.Normalized()
    ensures (forall now: int ::
               Misses(policy, reference, now) >= policy.missThreshold <==> now >= reference + policy.FailureTimeout())
            <==> Consistent(policy)
  {
    if Consistent(policy) {
      forall now: int
        ensures Misses(policy, reference, now) >= policy.missThreshold <==> now >= reference + policy.FailureTimeout()
      {
        AgreeWhenConsistent(policy, reference, now);
      }
    } else {
      var now := DisagreeOtherwise(policy, reference);
    }
  }

  // ---------------------------------------------------------------------------------------------
  // Histories
  // ---------------------------------------------------------------------------------------------

  datatype Event = Started(at: int) | Sent(at: int) | Received(at: int)

  function Observe(m: MonitorState, e: Event): MonitorState {
    var started := if m.startedAt.None? then Some(e.at) else m.startedAt;
    match e
    case Started(_) => m.(startedAt := started)
    case Sent(at) => m.(startedAt := started, lastSentAt := Some(at))
    case Received(at) => m.(startedAt := started, lastReceivedAt := Some(at))
  }

  function AfterEvents(events: seq<Event>): MonitorState {
    if events == [] then MonitorState(None, None, None)
    else Observe(AfterEvents(events[..|events| - 1]), events[|events| - 1])
  }

  /** The time of the last event that came from the peer, if any. */
  function LastReceive(events: seq<Event>): Option<int> {
    if events == [] then None
    else if events[|events| - 1].Received? then Some(events[|events| - 1].at)
    else LastReceive(events[..|events| - 1])
  }

  function LastSend(events: seq<Event>): Option<int> {
    if events == [] then None
    else if events[|events| - 1].Sent? then Some(events[|events| - 1].at)
    else LastSend(events[..|events| - 1])
  }

  lemma {:induction false} HistoryReference(events: seq<Event>)
    ensures AfterEvents(events).startedAt == if events == [] then None else Some(events[0].at)
    ensures AfterEvents(events).lastReceivedAt == LastReceive(events)
    ensures AfterEvents(events).lastSentAt == LastSend(events)
  {
    if events != [] {
      HistoryReference(events[..|events| - 1]);
    }
  }

  /**
   For every history of a started monitor and every instant: under a policy none of whose 64-bit quantities overflows,
   the peer is dead exactly from threshold * interval + grace after the last sign of life (or, lacking one, after the
   first event).
   */
  lemma DeadAfterSilence(policy: Policy, events: seq<Event>, now: int)
    requires policy.Normalized() && events != [] && policy.sendInterval > 1
    requires policy.missThreshold * policy.sendInterval + policy.queueDelayGrace <= MAX_INT64
    ensures var status := Snapshot(policy, AfterEvents(events), now);
            var silentSince := if LastReceive(events).Some? then LastReceive(events).value else events[0].at;
            && status.Some?
            && (status.value.dead <==>
                  now >= silentSince + policy.missThreshold * policy.sendInterval + policy.queueDelayGrace)
            && (status.value.dead <==> now >= status.value.failureDeadline)
  {
    HistoryReference(events);
    WindowsPlusOne(policy);
    TimeoutIs(policy);
    WrapInRange(Windows(policy) + policy.sendInterval + policy.queueDelayGrace);
    DeadWhen(policy, Reference(AfterEvents(events)), now);
    AgreeWhenConsistent(policy, Reference(AfterEvents(events)), now);
  }

  class HeartbeatMonitor {
    const policy: Policy
    var startedAt: Option<int>
    var lastSentAt: Option<int>
    var lastReceivedAt: Option<int>

    function State(): MonitorState
      reads this
    {
      MonitorState(startedAt, lastSentAt, lastReceivedAt)
    }

    constructor (policy: Policy)
      requires policy.Normalized()
      ensures this.policy == policy && State() == AfterEvents([])
    {
      this.policy := policy;
      startedAt, lastSentAt, lastReceivedAt := None, None, None;
    }

    method Start(now: int)
      modifies this
      ensures State() == Observe(old(State()), Started(now))
    {
      if startedAt.None? {
        startedAt := Some(now);
      }
    }

    method ObserveSend(now: int)
      modifies this
      ensures State() == Observe(old(State()), Sent(now))
    {
      if startedAt.None? {
        startedAt := Some(now);
      }
      lastSentAt := Some(now);
    }

    method ObserveReceive(now: int)
      modifies this
      ensures State() == Observe(old(State()), Received(now))
    {
      if startedAt.None? {
        startedAt := Some(now);
      }
      lastReceivedAt := Some(now);
    }

    /** Due exactly from one interval after the last send, or after the start before any send. */
    method ShouldSend(now: int) returns (due: bool)
      requires policy.Normalized()
      ensures due <==> startedAt.Some? && now >= policy.sendInterval
                         + if lastSentAt.Some? then lastSentAt.value else startedAt.value
    {
      var status := Snapshot(policy, State(), now);
      due := status.Some? && now >= status.value.nextSendAt;
    }
  }
}
