/**
 The refill controller (ltfp/transport/refill_controller.go, ltfp/transport/pool_events.go): refill requests are
 processed once, and worker goroutines drain a channel of open jobs into the tunnel pool.
 */
module Refill {
  import opened Basics
  import opened Results
  import opened Strings
  import opened TunnelPool

  // ---------------------------------------------------------------------------------------------
  // Deduplication of requests
  // ---------------------------------------------------------------------------------------------

  /** A call of MarkSeen: the trimmed request id, and the time. */
  datatype Call = Call(id: string, now: Time)

  function Cleanup(seenAt: map<string, Time>, now: Time, ttl: int): map<string, Time> {
    map id | id in seenAt && seenAt[id] >= now - ttl :: seenAt[id]
  }

  /** The table after a call, and whether the request is new. A blank id is always new and leaves no trace. */
  function MarkSpec(seenAt: map<string, Time>, ttl: int, call: Call): (map<string, Time>, bool) {
    if call.id == "" then (seenAt, true)
    else
      var rest := Cleanup(seenAt, call.now, ttl);
      if call.id in rest then (rest, false) else (rest[call.id := call.now], true)
  }

  function SeenAfter(ttl: int, calls: seq<Call>, k: nat): map<string, Time>
    requires k <= |calls|
  {
    if k == 0 then map[] else MarkSpec(SeenAfter(ttl, calls, k - 1), ttl, calls[k - 1]).0
  }

  predicate NewAt(ttl: int, calls: seq<Call>, k: nat)
    requires k < |calls|
  {
    MarkSpec(SeenAfter(ttl, calls, k), ttl, calls[k]).1
  }

  /** Call `j` makes the table forget what was seen at time `seen`. */
  predicate Forgets(ttl: int, calls: seq<Call>, j: nat, seen: Time)
    requires j < |calls|
  {
    calls[j].id != "" && calls[j].now > seen + ttl
  }

  /** Call `i` was new, and no call after it and before `k` has made the table forget it. */
  ghost predicate Remembered(ttl: int, calls: seq<Call>, i: nat, k: nat)
    requires i < k <= |calls|
  {
    && calls[i].id != "" && NewAt(ttl, calls, i)
    && forall j: nat :: i < j < k ==> !Forgets(ttl, calls, j, calls[i].now)
  }

  lemma {:induction false} RememberedIsRecorded(ttl: int, calls: seq<Call>, i: nat, k: nat)
    requires i < k <= |calls| && Remembered(ttl, calls, i, k)
    ensures calls[i].id in SeenAfter(ttl, calls, k) && SeenAfter(ttl, calls, k)[calls[i].id] == calls[i].now
    decreases k
  {
    if i + 1 < k {
      RememberedIsRecorded(ttl, calls, i, k - 1);
      assert !Forgets(ttl, calls, k - 1, calls[i].now);
    }
  }

  lemma {:induction false} RecordedIsRemembered(ttl: int, calls: seq<Call>, k: nat, id: string) returns (i: nat)
    requires k <= |calls| && id in SeenAfter(ttl, calls, k)
    ensures i < k && Remembered(ttl, calls, i, k) && calls[i].id == id
    ensures SeenAfter(ttl, calls, k)[id] == calls[i].now
  {
    var before := SeenAfter(ttl, calls, k - 1);
    if calls[k - 1].id == id && NewAt(ttl, calls, k - 1) && id != "" {
      i := k - 1;
    } else {
      i := RecordedIsRemembered(ttl, calls, k - 1, id);
    }
  }

  /**
   For any clock, a request is refused exactly if an earlier call with its id was new and has not been forgotten: so
   between two refills for one id there is always a call more than `ttl` after the first.
   */
  lemma OnceUntilForgotten(ttl: int, calls: seq<Call>, k: nat)
    requires k < |calls| && calls[k].id != ""
    ensures !NewAt(ttl, calls, k)
            <==> exists i: nat :: i < k && calls[i].id == calls[k].id && Remembered(ttl, calls, i, k)
                                  && !Forgets(ttl, calls, k, calls[i].now)
  {
    var id := calls[k].id;
    if id in SeenAfter(ttl, calls, k) {
      var i := RecordedIsRemembered(ttl, calls, k, id);
      assert calls[i].id == id && Remembered(ttl, calls, i, k);
      forall i2: nat | i2 < k && calls[i2].id == id && Remembered(ttl, calls, i2, k)
        ensures calls[i2].now == calls[i].now
      {
        RememberedIsRecorded(ttl, calls, i2, k);
      }
    } else {
      forall i: nat | i < k && calls[i].id == id && Remembered(ttl, calls, i, k) ensures false {
        RememberedIsRecorded(ttl, calls, i, k);
      }
    }
  }

  class RefillRequestDeduplicator {
    var requestSeenAt: map<string, Time>
    const ttl: int

    constructor (ttl: int)
      ensures requestSeenAt == map[] && this.ttl == if ttl <= 0 then 600_000_000_000 else ttl
    {
      requestSeenAt := map[];
      this.ttl := if ttl <= 0 then 600_000_000_000 else ttl;
    }

    method CleanupLocked(now: Time)
      modifies this
      ensures requestSeenAt == Cleanup(old(requestSeenAt), now, ttl)
    {
      var expiredBefore := now - ttl;
      var left := requestSeenAt.Keys;
      while left != {}
        invariant left <= requestSeenAt.Keys <= old(requestSeenAt).Keys
        invariant forall id :: id in requestSeenAt ==> requestSeenAt[id] == old(requestSeenAt)[id]
        invariant forall id :: id in old(requestSeenAt) && id !in left ==>
                    (id in requestSeenAt <==> old(requestSeenAt)[id] >= expiredBefore)
        decreases |left|
      {
        var requestID :| requestID in left;
        left := left - {requestID};
        if requestSeenAt[requestID] < expiredBefore {
          requestSeenAt := requestSeenAt - {requestID};
        }
      }
    }

    method MarkSeen(requestID: string, now: Time) returns (first: bool)
      modifies this
      ensures first == MarkSpec(old(requestSeenAt), ttl, Call(Trim(requestID), now)).1
      ensures requestSeenAt == MarkSpec(old(requestSeenAt), ttl, Call(Trim(requestID), now)).0
    {
      var id := Trim(requestID);
      if id == "" {
        return true;
      }
      CleanupLocked(now);
      if id in requestSeenAt {
        return false;
      }
      requestSeenAt := requestSeenAt[id := now];
      first := true;
    }
  }

  // ---------------------------------------------------------------------------------------------
  // Requests
  // ---------------------------------------------------------------------------------------------

  function Distance(a: int, b: int): nat {
    if a < b then b - a else a - b
  }

  function OrDefault(value: int, byDefault: int): int {
    if value <= 0 then byDefault else value
  }

  const DEFAULT_MAX_IDLE := 1024
  const DEFAULT_MAX_IN_FLIGHT := 4
  const DEFAULT_DEDUP_TTL := 600_000_000_000

  datatype Config = Config(
    minIdle: int, maxIdle: int, maxInFlight: int, openRateLimit: real, openBurst: int, dedupTTL: int)
  {
    predicate Valid() {
      && 0 <= minIdle <= maxIdle && 0 < maxIdle && 0 < maxInFlight
      && 0.0 < openRateLimit && 0 < openBurst && 0 < dedupTTL
    }

    /**
     Negative minima become 0, missing limits the defaults; contradictory limits and a limiter that never opens fail.
     */
    function Normalize(): (normalized: Option<Config>)
      ensures Valid() <==> normalized == Some(this)
      ensures normalized.Some? <==>
                minIdle <= OrDefault(maxIdle, DEFAULT_MAX_IDLE) && 0.0 < openRateLimit && 0 < openBurst
      ensures normalized.Some? ==>
                && normalized.value.Valid()
                && normalized.value.minIdle == (if minIdle < 0 then 0 else minIdle)
                && Settled(maxIdle, DEFAULT_MAX_IDLE, normalized.value.maxIdle)
                && Settled(maxInFlight, DEFAULT_MAX_IN_FLIGHT, normalized.value.maxInFlight)
                && Settled(dedupTTL, DEFAULT_DEDUP_TTL, normalized.value.dedupTTL)
                && normalized.value.openRateLimit == openRateLimit && normalized.value.openBurst == openBurst
    {
      var minimum := if minIdle < 0 then 0 else minIdle;
      var maximum := OrDefault(maxIdle, DEFAULT_MAX_IDLE);
      if minimum > maximum then None
      else if openRateLimit <= 0.0 || openBurst <= 0 then None
      else
        Some(Config(minimum, maximum, OrDefault(maxInFlight, DEFAULT_MAX_IN_FLIGHT), openRateLimit, openBurst,
                    OrDefault(dedupTTL, DEFAULT_DEDUP_TTL)))
    }

    /** The nearest target within the limits. */
    function ClampTargetIdle(target: int): (clamped: int)
      ensures Valid() ==> minIdle <= clamped <= maxIdle
      ensures Valid() ==> forall other :: minIdle <= other <= maxIdle ==>
                Distance(target, clamped) <= Distance(target, other)
    {
      if target < minIdle then minIdle else if target > maxIdle then maxIdle else target
    }
  }

  datatype Request = Request(sessionID: string, sessionEpoch: nat, requestID: string, delta: int, reason: string)

  predicate ValidRequest(request: Request) {
    && Trim(request.sessionID) != "" && request.sessionEpoch > 0 && Trim(request.requestID) != "" && request.delta > 0
    && Trim(request.reason) in {"", "low_watermark", "acquire_timeout", "startup", "manual"}
  }

  /** What a request leads to: an error, the answer to a repetition, or a refill towards a target. */
  datatype Handling =
    | InvalidRequest
    | Deduplicated(requestID: string, before: nat, requestedTarget: int, effectiveTarget: int)
    | Start(requestID: string, requestedTarget: int)

  datatype RefillResult = RefillResult(
    before: nat, effectiveTarget: int, openedCount: nat, failedCount: nat, after: nat)

  lemma PutGrows(maxIdle: nat, pool: Pool, tunnel: Tunnel, state: TunnelState, now: Time)
    ensures var put := PutIdleSpec(maxIdle, pool, tunnel, state, now);
            |put.0.queue| == |pool.queue| + if put.1 == None && Key(tunnel) !in QueueKeys(pool.queue) then 1 else 0
  {
  }

  function One(b: bool): nat {
    if b then 1 else 0
  }

  class RefillController {
    const config: Config
    const requestDedupStore: RefillRequestDeduplicator

    constructor (config: Config)
      requires config.Valid()
      ensures this.config == config && fresh(requestDedupStore) && requestDedupStore.requestSeenAt == map[]
      ensures requestDedupStore.ttl == config.dedupTTL
    {
      this.config := config;
      requestDedupStore := new RefillRequestDeduplicator(config.dedupTTL);
    }

    /** Invalid requests leave no trace; a valid one starts a refill exactly if its id is new. */
    method HandleRefillRequest(request: Request, now: Time, idle: nat) returns (handling: Handling)
      modifies requestDedupStore
      ensures var id, store := Trim(request.requestID), requestDedupStore;
              if !ValidRequest(request) then
                handling == InvalidRequest && store.requestSeenAt == old(store.requestSeenAt)
              else
                var mark := MarkSpec(old(store.requestSeenAt), store.ttl, Call(id, now));
                && store.requestSeenAt == mark.0
                && handling == (if mark.1 then Start(id, idle + request.delta)
                                else Deduplicated(id, idle, idle + request.delta,
                                                  config.ClampTargetIdle(idle + request.delta)))
    {
      if !ValidRequest(request) {
        return InvalidRequest;
      }
      TrimIsTrimmed(request.requestID);
      var requestID := Trim(request.requestID);
      var first := requestDedupStore.MarkSeen(requestID, now);
      var target := idle + request.delta;
      if !first {
        return Deduplicated(requestID, idle, target, config.ClampTargetIdle(target));
      }
      handling := Start(requestID, target);
    }

    /** Attempt `i` to open a tunnel and put it into the pool; the refill is that of a single worker. */
    method OpenOne(pool: InMemoryTunnelPool, ghost runs: nat -> Run, i: nat, answers: Answers, ghost counts: Counts)
      returns (opens: bool, refused: bool, ghost again: bool)
      requires pool.Valid() && Performs(pool.maxIdleTunnels, answers, runs)
      requires counts.jobs > 0 && Stands(runs(i), pool.Current(), counts, false)
      modifies pool
      ensures pool.Valid() && |pool.Queue()| + One(again) == |old(pool.Queue())| + One(opens)
      ensures (refused ==> !opens && !answers.allowed(i)) && (again ==> opens)
      ensures Stands(runs(i + 1), pool.Current(), counts.After(opens, again), refused)
    {
      AttemptIs(pool.maxIdleTunnels, runs(i), i, answers);
      opens, refused, again := false, false, false;
      if !answers.allowed(i) {
        refused := true;
        return;
      }
      var tunnel := answers.open(i);
      if tunnel.None? {
        return;
      }
      PutGrows(pool.maxIdleTunnels, pool.Current(), tunnel.value, answers.state(i), answers.now);
      again := Key(tunnel.value) in QueueKeys(pool.Queue());
      var error := pool.PutIdle(tunnel.value, answers.state(i), answers.now);
      opens, again := error.None?, again && error.None?;
    }

    /** The loop of a single worker. */
    method DoJobs(pool: InMemoryTunnelPool, ghost runs: nat -> Run, jobs: nat, answers: Answers)
      returns (openedCount: nat, failedCount: nat, ghost replaced: nat)
      requires pool.Valid() && Performs(pool.maxIdleTunnels, answers, runs) && runs(0) == Lone(pool.Current(), jobs)
      modifies pool
      ensures pool.Valid() && |pool.Queue()| + replaced == |old(pool.Queue())| + openedCount
      ensures openedCount + failedCount <= jobs
      ensures openedCount + failedCount == jobs || exists i :: !answers.allowed(i)
      ensures Finished(runs(jobs + 1), pool.Current(), openedCount, failedCount, replaced)
    {
      var i, refused := 0, false;
      openedCount, failedCount, replaced := 0, 0, 0;
      while i < jobs && !refused
        invariant pool.Valid() && i == openedCount + failedCount <= jobs
        invariant |pool.Queue()| + replaced == |old(pool.Queue())| + openedCount
        invariant refused ==> i > 0 && !answers.allowed(i - 1)
        invariant Stands(runs(i), pool.Current(), Counts(jobs - i, openedCount, failedCount, replaced), refused)
        modifies pool
      {
        var opens;
        ghost var again;
        opens, refused, again :=
          OpenOne(pool, runs, i, answers, Counts(jobs - i, openedCount, failedCount, replaced));
        if opens {
          openedCount := openedCount + 1;
          replaced := replaced + One(again);
        } else {
          failedCount := failedCount + 1;
        }
        i := i + 1;
      }
      StandsFinally(runs(i), pool.Current(), Counts(jobs - i, openedCount, failedCount, replaced), refused);
      LoneEnds(pool.maxIdleTunnels, answers, runs, i, jobs + 1);
    }

    /**
     A refill with one worker, given the answers to its attempts: it ends as that worker on its own does, and so, too,
     with its counts. (Several workers interleave as described below.)
     */
    method RefillToTarget(pool: InMemoryTunnelPool, target: int, answers: Answers)
      returns (result: RefillResult, ghost replaced: nat, ghost runs: nat -> Run)
      requires pool.Valid() && config.Valid()
      modifies pool
      ensures pool.Valid() && result.before == |old(pool.Queue())| && result.after == |pool.Queue()|
      ensures result.effectiveTarget == config.ClampTargetIdle(target)
      ensures result.before >= result.effectiveTarget ==>
                result.openedCount == result.failedCount == 0 && pool.Current() == old(pool.Current())
      ensures result.before < result.effectiveTarget ==>
                var jobs := result.effectiveTarget - result.before;
                && runs(0) == Lone(old(pool.Current()), jobs) && Performs(pool.maxIdleTunnels, answers, runs)
                && Finished(runs(jobs + 1), pool.Current(), result.openedCount, result.failedCount, replaced)
                && result.after + replaced == result.before + result.openedCount
                && result.openedCount + result.failedCount <= jobs
                && ((forall i :: answers.allowed(i)) ==> result.openedCount + result.failedCount == jobs)
    {
      var idle := pool.IdleCount();
      ghost var before := pool.Current();
      replaced, runs := 0, i => Lone(before, 0);
      result := RefillResult(idle, config.ClampTargetIdle(target), 0, 0, idle);
      if idle >= result.effectiveTarget {
        return;
      }
      var jobs: nat := result.effectiveTarget - idle;
      runs := LonePerforms(pool.maxIdleTunnels, Lone(pool.Current(), jobs), answers);
      var openedCount, failedCount;
      openedCount, failedCount, replaced := DoJobs(pool, runs, jobs, answers);
      var after := pool.IdleCount();
      result := RefillResult(idle, result.effectiveTarget, openedCount, failedCount, after);
    }
  }

  // ---------------------------------------------------------------------------------------------
  // Workers
  // ---------------------------------------------------------------------------------------------

  /**
   Where a worker is: about to take a job, waiting for the rate limiter, opening a tunnel, holding one, about to count
   the outcome of PutIdle, or gone, because no jobs are left or because the limiter failed.
   */
  datatype Phase = Ready | Limited | Opening | Holding(tunnel: Tunnel) | Counting(stored: bool) | Drained | Refused

  /**
   `jobs` is what the channel still holds. `replacedCount` counts tunnels stored under an id that was idle already.
   */
  datatype Run = Run(pool: Pool, jobs: nat, workers: seq<Phase>, openedCount: nat, failedCount: nat, replacedCount: nat)

  datatype Move =
    | TakeJob
    | LimiterReturns(ok: bool)
    | OpenReturns(result: Option<Tunnel>)
    | Store(state: TunnelState, now: Time)
    | Report

  function MoveTo(run: Run, w: nat, phase: Phase): Run
    requires w < |run.workers|
  {
    run.(workers := run.workers[w := phase])
  }

  function StoreStep(maxIdle: nat, run: Run, w: nat, state: TunnelState, now: Time): Run
    requires w < |run.workers| && run.workers[w].Holding?
  {
    var tunnel := run.workers[w].tunnel;
    var put := PutIdleSpec(maxIdle, run.pool, tunnel, state, now);
    var again := put.1 == None && Key(tunnel) in QueueKeys(run.pool.queue);
    MoveTo(run, w, Counting(put.1 == None)).(pool := put.0, replacedCount := run.replacedCount + if again then 1 else 0)
  }

  /** One step of one worker; a move that does not fit its phase does nothing. */
  function Step(maxIdle: nat, run: Run, w: nat, move: Move): Run {
    if w >= |run.workers| then run
    else
      match (run.workers[w], move)
      case (Ready, TakeJob) =>
        if run.jobs > 0 then MoveTo(run, w, Limited).(jobs := run.jobs - 1) else MoveTo(run, w, Drained)
      case (Limited, LimiterReturns(ok)) =>
        if ok then MoveTo(run, w, Phase.Opening) else MoveTo(run, w, Refused).(failedCount := run.failedCount + 1)
      case (Opening, OpenReturns(None)) => MoveTo(run, w, Ready).(failedCount := run.failedCount + 1)
      case (Opening, OpenReturns(Some(tunnel))) => MoveTo(run, w, Holding(tunnel))
      case (Holding(tunnel), Store(state, now)) => StoreStep(maxIdle, run, w, state, now)
      case (Counting(stored), Report) =>
        if stored then MoveTo(run, w, Ready).(openedCount := run.openedCount + 1)
        else MoveTo(run, w, Ready).(failedCount := run.failedCount + 1)
      case _ => run
  }

  /** The run that RefillToTarget starts when `idle` tunnels are short of the effective target. */
  function StartRun(config: Config, pool: Pool, target: int): Run
    requires config.Valid() && |pool.queue| < config.ClampTargetIdle(target)
  {
    var shortfall := config.ClampTargetIdle(target) - |pool.queue|;
    var workers := if shortfall > config.maxInFlight then config.maxInFlight else shortfall;
    Run(pool, shortfall, seq(workers, i => Ready), 0, 0, 0)
  }

  /** The answers of the limiter and the producer to each attempt, and what a tunnel reports when it is put. */
  datatype Answers = Answers(allowed: nat -> bool, open: nat -> Option<Tunnel>, state: nat -> TunnelState, now: Time)

  /** A refill with a single worker. */
  function Lone(pool: Pool, jobs: nat): Run {
    Run(pool, jobs, [Ready], 0, 0, 0)
  }

  /** The events of attempt `i` of a single worker; those that do not fit its phase do nothing. */
  function Attempt(answers: Answers, i: nat): seq<Event> {
    [Worker(0, TakeJob), Worker(0, LimiterReturns(answers.allowed(i))), Worker(0, OpenReturns(answers.open(i))),
     Worker(0, Store(answers.state(i), answers.now)), Worker(0, Report)]
  }

  function Attempts(answers: Answers, n: nat): seq<Event> {
    if n == 0 then [] else Attempts(answers, n - 1) + Attempt(answers, n - 1)
  }

  function AfterAll(maxIdle: nat, start: Run, events: seq<Event>): Run {
    After(maxIdle, start, events, |events|)
  }

  /** A single worker after each number of attempts. */
  function Alone(maxIdle: nat, start: Run, answers: Answers): nat -> Run {
    (n: nat) => AfterAll(maxIdle, start, Attempts(answers, n))
  }

  /** `runs` is a single worker after each number of attempts. */
  ghost predicate Performs(maxIdle: nat, answers: Answers, runs: nat -> Run) {
    forall n: nat {:trigger Attempt(answers, n)} :: runs(n + 1) == AfterAll(maxIdle, runs(n), Attempt(answers, n))
  }

  datatype Counts = Counts(jobs: nat, filled: nat, failed: nat, replaced: nat) {
    /** One job later. */
    function After(opens: bool, again: bool): Counts
      requires jobs > 0
    {
      Counts(jobs - 1, filled + One(opens), failed + One(!opens), replaced + One(again))
    }
  }

  /** Where a refill with a single worker is between two jobs. */
  predicate Stands(run: Run, pool: Pool, counts: Counts, refused: bool) {
    run == Run(pool, counts.jobs, [if refused then Refused else Ready], counts.filled, counts.failed, counts.replaced)
  }

  lemma StandsFinally(run: Run, pool: Pool, counts: Counts, refused: bool)
    requires Stands(run, pool, counts, refused) && (refused || counts.jobs == 0)
    ensures Idling(run) && Finished(Leave(run), pool, counts.filled, counts.failed, counts.replaced)
  {
  }

  /** Where a refill ends: its worker is gone, with these counts. */
  predicate Finished(run: Run, pool: Pool, openedCount: nat, failedCount: nat, replacedCount: nat) {
    && Over(run) && run.pool == pool
    && (run.openedCount, run.failedCount, run.replacedCount) == (openedCount, failedCount, replacedCount)
  }

  lemma {:induction false} AfterConcat(maxIdle: nat, start: Run, events: seq<Event>, more: seq<Event>, k: nat)
    requires k <= |more|
    ensures After(maxIdle, start, events + more, |events| + k)
         == After(maxIdle, AfterAll(maxIdle, start, events), more, k)
  {
    if k > 0 {
      AfterConcat(maxIdle, start, events, more, k - 1);
    } else {
      AfterPrefix(maxIdle, start, events, events + more, |events|);
    }
  }

  lemma AfterPrefix(maxIdle: nat, start: Run, events: seq<Event>, more: seq<Event>, k: nat)
    requires k <= |events| <= |more| && forall i :: 0 <= i < k ==> events[i] == more[i]
    ensures After(maxIdle, start, events, k) == After(maxIdle, start, more, k)
  {
  }

  /** A single worker has such a run. */
  lemma LonePerforms(maxIdle: nat, start: Run, answers: Answers) returns (runs: nat -> Run)
    ensures runs(0) == start && Performs(maxIdle, answers, runs)
  {
    runs := Alone(maxIdle, start, answers);
    forall n: nat
      ensures AfterAll(maxIdle, start, Attempts(answers, n + 1))
           == AfterAll(maxIdle, AfterAll(maxIdle, start, Attempts(answers, n)), Attempt(answers, n))
    {
      AfterConcat(maxIdle, start, Attempts(answers, n), Attempt(answers, n), 5);
    }
  }

  /** It is a run of the machine: what holds of every run holds of it. */
  lemma {:induction false} PerformsIsARun(maxIdle: nat, start: Run, answers: Answers, runs: nat -> Run, n: nat)
    requires runs(0) == start && Performs(maxIdle, answers, runs)
    ensures runs(n) == AfterAll(maxIdle, start, Attempts(answers, n))
  {
    if n > 0 {
      PerformsIsARun(maxIdle, start, answers, runs, n - 1);
      AfterConcat(maxIdle, start, Attempts(answers, n - 1), Attempt(answers, n - 1), 5);
    }
  }

  lemma OneMove(maxIdle: nat, run: Run, answers: Answers, i: nat, j: nat)
    requires j < 5
    ensures After(maxIdle, run, Attempt(answers, i), 0) == run
    ensures After(maxIdle, run, Attempt(answers, i), j + 1)
         == Step(maxIdle, After(maxIdle, run, Attempt(answers, i), j), 0, Attempt(answers, i)[j].move)
  {
  }

  /** What a ready worker does with a job. */
  function Outcome(maxIdle: nat, run: Run, i: nat, answers: Answers): Run {
    if !answers.allowed(i) then run.(workers := [Refused], failedCount := run.failedCount + 1)
    else
      match answers.open(i)
      case None => run.(failedCount := run.failedCount + 1)
      case Some(tunnel) =>
        var (pool, error) := PutIdleSpec(maxIdle, run.pool, tunnel, answers.state(i), answers.now);
        var again := Key(tunnel) in QueueKeys(run.pool.queue);
        if error.Some? then run.(pool := pool, failedCount := run.failedCount + 1)
        else run.(pool := pool, openedCount := run.openedCount + 1,
                  replacedCount := run.replacedCount + if again then 1 else 0)
  }

  lemma AttemptIs(maxIdle: nat, run: Run, i: nat, answers: Answers)
    requires run.workers == [Ready] && run.jobs > 0
    ensures AfterAll(maxIdle, run, Attempt(answers, i)) == Outcome(maxIdle, run.(jobs := run.jobs - 1), i, answers)
  {
    var limited := run.(jobs := run.jobs - 1, workers := [Limited]);
    OneMove(maxIdle, run, answers, i, 0);
    assert After(maxIdle, run, Attempt(answers, i), 1) == limited;
    OneMove(maxIdle, run, answers, i, 1);
    OneMove(maxIdle, run, answers, i, 2);
    OneMove(maxIdle, run, answers, i, 3);
    OneMove(maxIdle, run, answers, i, 4);
    LimitedIs(maxIdle, limited, i, answers);
  }

  /** The rest of an attempt, in front of the limiter. */
  lemma LimitedIs(maxIdle: nat, run: Run, i: nat, answers: Answers)
    requires run.workers == [Limited]
    ensures var allowed := Step(maxIdle, run, 0, LimiterReturns(answers.allowed(i)));
            var produced := Step(maxIdle, allowed, 0, OpenReturns(answers.open(i)));
            var stored := Step(maxIdle, produced, 0, Store(answers.state(i), answers.now));
            Step(maxIdle, stored, 0, Report) == Outcome(maxIdle, run.(workers := [Ready]), i, answers)
  {
  }

  /** A worker that is gone stays so, and a ready one goes when no job is left. */
  lemma NoMoreJobs(maxIdle: nat, run: Run, i: nat, answers: Answers, k: nat)
    requires k <= 5 && Idling(run) && (k > 0 || run.workers != [Ready])
    ensures After(maxIdle, run, Attempt(answers, i), k)
         == Leave(run)
  {
    if k > 0 && (run.workers != [Ready] || k > 1) {
      NoMoreJobs(maxIdle, run, i, answers, k - 1);
    }
  }

  predicate Idling(run: Run) {
    run.workers in {[Refused], [Drained]} || (run.workers == [Ready] && run.jobs == 0)
  }

  function Leave(run: Run): Run {
    run.(workers := if run.workers == [Refused] then [Refused] else [Drained])
  }

  lemma {:induction false} IdlingEnds(runs: nat -> Run, n: nat, m: nat)
    requires n < m && Idling(runs(n)) && forall i: nat :: Idling(runs(i)) ==> runs(i + 1) == Leave(runs(i))
    ensures runs(m) == Leave(runs(n))
    decreases m
  {
    if n + 1 < m {
      IdlingEnds(runs, n, m - 1);
    }
  }

  lemma LoneEnds(maxIdle: nat, answers: Answers, runs: nat -> Run, n: nat, m: nat)
    requires n < m && Performs(maxIdle, answers, runs) && Idling(runs(n))
    ensures runs(m) == Leave(runs(n))
  {
    forall i: nat | Idling(runs(i))
      ensures runs(i + 1) == Leave(runs(i))
    {
      NoMoreJobs(maxIdle, runs(i), i, answers, 5);
    }
    IdlingEnds(runs, n, m);
  }

  function Count(workers: seq<Phase>, counts: Phase -> bool): nat {
    if workers == [] then 0 else (if counts(workers[0]) then 1 else 0) + Count(workers[1..], counts)
  }

  predicate HasJob(phase: Phase) {
    phase.Limited? || phase.Opening? || phase.Holding? || phase.Counting?
  }

  predicate IsOpening(phase: Phase) {
    phase.Opening?
  }

  predicate Stored(phase: Phase) {
    phase.Counting? && phase.stored
  }

  function Weight(phase: Phase): nat {
    match phase
    case Limited => 5
    case Opening => 4
    case Holding(_) => 3
    case Counting(_) => 2
    case Ready => 1
    case _ => 0
  }

  function TotalWeight(workers: seq<Phase>): nat {
    if workers == [] then 0 else Weight(workers[0]) + TotalWeight(workers[1..])
  }

  lemma {:induction false} CountUpdate(workers: seq<Phase>, counts: Phase -> bool, w: nat, phase: Phase)
    requires w < |workers|
    ensures Count(workers[w := phase], counts)
         == Count(workers, counts) - (if counts(workers[w]) then 1 else 0) + (if counts(phase) then 1 else 0)
  {
    if w > 0 {
      CountUpdate(workers[1..], counts, w - 1, phase);
      assert workers[w := phase][1..] == workers[1..][w - 1 := phase];
    } else {
      assert workers[w := phase][1..] == workers[1..];
    }
  }

  lemma {:induction false} WeightUpdate(workers: seq<Phase>, w: nat, phase: Phase)
    requires w < |workers|
    ensures TotalWeight(workers[w := phase]) == TotalWeight(workers) - Weight(workers[w]) + Weight(phase)
  {
    if w > 0 {
      WeightUpdate(workers[1..], w - 1, phase);
      assert workers[w := phase][1..] == workers[1..][w - 1 := phase];
    } else {
      assert workers[w := phase][1..] == workers[1..];
    }
  }

  lemma CountBound(workers: seq<Phase>, counts: Phase -> bool)
    ensures Count(workers, counts) <= |workers|
    ensures (forall w :: 0 <= w < |workers| ==> !counts(workers[w])) <==> Count(workers, counts) == 0
  {
    if workers != [] {
      CountBound(workers[1..], counts);
      assert forall w :: 0 < w < |workers| ==> workers[w] == workers[1..][w - 1];
    }
  }

  // ---------------------------------------------------------------------------------------------
  // What holds of every run
  // ---------------------------------------------------------------------------------------------

  /** A step of a worker, or something else that happens to the pool. */
  datatype Event = Worker(w: nat, move: Move) | Other(pool: Pool)

  function Next(maxIdle: nat, run: Run, e: Event): Run {
    match e
    case Worker(w, move) => Step(maxIdle, run, w, move)
    case Other(pool) => run.(pool := pool)
  }

  function After(maxIdle: nat, start: Run, events: seq<Event>, k: nat): Run
    requires k <= |events|
  {
    if k == 0 then start else Next(maxIdle, After(maxIdle, start, events, k - 1), events[k - 1])
  }

  /** Every job is in the channel, in a worker's hands, or counted; and a worker leaves for lack of jobs only. */
  predicate JobsAccounted(run: Run, shortfall: nat) {
    && run.openedCount + run.failedCount + run.jobs + Count(run.workers, HasJob) == shortfall
    && (forall w :: 0 <= w < |run.workers| && run.workers[w].Drained? ==> run.jobs == 0)
    && (forall w :: 0 <= w < |run.workers| && run.workers[w].Refused? ==> run.failedCount > 0)
  }

  /**
   One worker moved, and nothing is lost: a job that leaves the channel or a worker is in the hands of a worker or
   counted, and a worker leaves for the right reason.
   */
  predicate Moved(run: Run, next: Run, w: nat) {
    && w < |run.workers| && |next.workers| == |run.workers| && next.workers == run.workers[w := next.workers[w]]
    && next.jobs <= run.jobs && next.failedCount >= run.failedCount
    && next.openedCount + next.failedCount + next.jobs + (if HasJob(next.workers[w]) then 1 else 0)
       == run.openedCount + run.failedCount + run.jobs + (if HasJob(run.workers[w]) then 1 else 0)
    && (next.workers[w].Drained? ==> next.jobs == 0) && (next.workers[w].Refused? ==> next.failedCount > 0)
  }

  lemma StepMoves(maxIdle: nat, run: Run, w: nat, move: Move, next: Run)
    requires next == Step(maxIdle, run, w, move)
    ensures next == run || Moved(run, next, w)
  {
  }

  lemma MovedAccounts(run: Run, next: Run, w: nat, shortfall: nat)
    requires JobsAccounted(run, shortfall) && Moved(run, next, w)
    ensures JobsAccounted(next, shortfall)
  {
    CountUpdate(run.workers, HasJob, w, next.workers[w]);
  }

  lemma StepAccounts(maxIdle: nat, run: Run, e: Event, next: Run, shortfall: nat)
    requires JobsAccounted(run, shortfall) && next == Next(maxIdle, run, e)
    ensures JobsAccounted(next, shortfall) && |next.workers| == |run.workers|
  {
    if e.Worker? {
      StepMoves(maxIdle, run, e.w, e.move, next);
      if next != run {
        MovedAccounts(run, next, e.w, shortfall);
      }
    }
  }

  /** After `k` events of a refill the jobs are accounted for, and its workers are the same number. */
  ghost predicate AccountedAfter(maxIdle: nat, start: Run, events: seq<Event>, k: nat, shortfall: nat)
    requires k <= |events|
  {
    var run := After(maxIdle, start, events, k);
    JobsAccounted(run, shortfall) && |run.workers| == |start.workers|
  }

  lemma {:induction false} AlwaysAccounted(maxIdle: nat, start: Run, events: seq<Event>, k: nat, shortfall: nat)
    requires k <= |events| && JobsAccounted(start, shortfall)
    ensures AccountedAfter(maxIdle, start, events, k, shortfall)
  {
    if k > 0 {
      AlwaysAccounted(maxIdle, start, events, k - 1, shortfall);
      StepAccounts(maxIdle, After(maxIdle, start, events, k - 1), events[k - 1], After(maxIdle, start, events, k),
                   shortfall);
    }
  }

  lemma StartAccounts(config: Config, pool: Pool, target: int)
    requires config.Valid() && |pool.queue| < config.ClampTargetIdle(target)
    ensures var run := StartRun(config, pool, target);
            && JobsAccounted(run, config.ClampTargetIdle(target) - |pool.queue|)
            && 0 < |run.workers| <= config.maxInFlight && Count(run.workers, Stored) == 0
  {
    var run := StartRun(config, pool, target);
    CountBound(run.workers, HasJob);
    CountBound(run.workers, Stored);
  }

  predicate Over(run: Run) {
    forall w :: 0 <= w < |run.workers| ==> run.workers[w].Drained? || run.workers[w].Refused?
  }

  /**
   The counts never pass the shortfall, never are more than `maxInFlight` tunnels being opened, and once all workers are
   gone none is and every job is counted, but for those left over if the limiter failed for all of them.
   */
  predicate CountsMatch(run: Run, shortfall: nat, maxInFlight: int) {
    && run.openedCount + run.failedCount <= shortfall
    && Count(run.workers, IsOpening) <= maxInFlight
    && (Over(run) ==> Count(run.workers, IsOpening) == 0 && run.openedCount + run.failedCount == shortfall - run.jobs)
    && (Over(run) && run.jobs > 0 ==>
          run.failedCount > 0 && forall w :: 0 <= w < |run.workers| ==> run.workers[w].Refused?)
  }

  lemma AccountedMatches(run: Run, shortfall: nat, maxInFlight: int)
    requires JobsAccounted(run, shortfall) && 0 < |run.workers| <= maxInFlight
    ensures CountsMatch(run, shortfall, maxInFlight)
  {
    CountBound(run.workers, IsOpening);
    if Over(run) {
      CountBound(run.workers, HasJob);
      assert run.workers[0].Drained? || run.workers[0].Refused?;
    }
  }

  /** So it is for every refill, whatever else happens to the pool. */
  lemma CountsMatchShortfall(poolMax: nat, config: Config, pool: Pool, target: int, events: seq<Event>, k: nat)
    requires config.Valid() && |pool.queue| < config.ClampTargetIdle(target) && k <= |events|
    ensures CountsMatch(After(poolMax, StartRun(config, pool, target), events, k),
                        config.ClampTargetIdle(target) - |pool.queue|, config.maxInFlight)
  {
    var start, shortfall := StartRun(config, pool, target), config.ClampTargetIdle(target) - |pool.queue|;
    StartAccounts(config, pool, target);
    AlwaysAccounted(poolMax, start, events, k, shortfall);
    AccountedMatches(After(poolMax, start, events, k), shortfall, config.maxInFlight);
  }

  // What an event is to the worker that it reaches: the limiter turns it away, the producer has no tunnel for it or has
  // one, it puts its tunnel into the pool, and the pool takes it.

  predicate TurnsAway(run: Run, e: Event) {
    e.Worker? && e.w < |run.workers| && run.workers[e.w].Limited? && e.move == LimiterReturns(false)
  }

  predicate HasNoTunnel(run: Run, e: Event) {
    e.Worker? && e.w < |run.workers| && run.workers[e.w].Opening? && e.move == OpenReturns(None)
  }

  predicate Opens(run: Run, e: Event) {
    e.Worker? && e.w < |run.workers| && run.workers[e.w].Opening? && e.move.OpenReturns? && e.move.result.Some?
  }

  predicate Puts(run: Run, e: Event) {
    e.Worker? && e.w < |run.workers| && run.workers[e.w].Holding? && e.move.Store?
  }

  predicate Takes(maxIdle: nat, run: Run, e: Event) {
    && Puts(run, e)
    && PutIdleSpec(maxIdle, run.pool, run.workers[e.w].tunnel, e.move.state, e.move.now).1 == None
  }

  predicate Holds(phase: Phase) {
    phase.Holding?
  }

  predicate NotStored(phase: Phase) {
    phase.Counting? && !phase.stored
  }

  /** How often each of them has happened. */
  datatype Tally = Tally(turnedAway: nat, noTunnel: nat, produced: nat, put: nat, taken: nat)

  function CountEvent(maxIdle: nat, tally: Tally, run: Run, e: Event): Tally {
    Tally(tally.turnedAway + if TurnsAway(run, e) then 1 else 0,
          tally.noTunnel + if HasNoTunnel(run, e) then 1 else 0,
          tally.produced + if Opens(run, e) then 1 else 0,
          tally.put + if Puts(run, e) then 1 else 0,
          tally.taken + if Takes(maxIdle, run, e) then 1 else 0)
  }

  function TallyOf(maxIdle: nat, start: Run, events: seq<Event>, k: nat): Tally
    requires k <= |events|
  {
    if k == 0 then Tally(0, 0, 0, 0, 0)
    else
      CountEvent(maxIdle, TallyOf(maxIdle, start, events, k - 1), After(maxIdle, start, events, k - 1), events[k - 1])
  }

  /**
   A tunnel that was opened is in the hands of its worker or has been put; what the pool took is counted as opened; and
   every other answer, of the limiter, the producer or the pool, is counted as one failure.
   */
  predicate Tallies(run: Run, tally: Tally) {
    && tally.produced == tally.put + Count(run.workers, Holds)
    && tally.taken == run.openedCount + Count(run.workers, Stored)
    && tally.turnedAway + tally.noTunnel + (tally.put - tally.taken) == run.failedCount + Count(run.workers, NotStored)
  }

  /** What one event adds to the tally is what it adds to the counts and to the hands of its worker. */
  predicate Adds(run: Run, next: Run, w: nat, more: Tally) {
    && w < |run.workers| == |next.workers| && next.workers == run.workers[w := next.workers[w]]
    && var before, now := run.workers[w], next.workers[w];
       && more.produced + One(Holds(before)) == more.put + One(Holds(now))
       && more.taken + run.openedCount + One(Stored(before)) == next.openedCount + One(Stored(now))
       && more.turnedAway + more.noTunnel + (more.put - more.taken) + run.failedCount + One(NotStored(before))
          == next.failedCount + One(NotStored(now))
  }

  lemma EventAdds(maxIdle: nat, run: Run, e: Event, next: Run)
    requires next == Next(maxIdle, run, e) && e.Worker?
    ensures next == run ==> CountEvent(maxIdle, Tally(0, 0, 0, 0, 0), run, e) == Tally(0, 0, 0, 0, 0)
    ensures next != run ==> Adds(run, next, e.w, CountEvent(maxIdle, Tally(0, 0, 0, 0, 0), run, e))
  {
    if e.w < |run.workers| && next == run {
      assert next.workers[e.w] == run.workers[e.w];
    }
  }

  function AddTallies(x: Tally, y: Tally): Tally {
    Tally(x.turnedAway + y.turnedAway, x.noTunnel + y.noTunnel, x.produced + y.produced, x.put + y.put,
          x.taken + y.taken)
  }

  lemma AddsTallies(run: Run, tally: Tally, next: Run, w: nat, more: Tally)
    requires Tallies(run, tally) && Adds(run, next, w, more)
    ensures Tallies(next, AddTallies(tally, more))
  {
    CountUpdate(run.workers, Holds, w, next.workers[w]);
    CountUpdate(run.workers, Stored, w, next.workers[w]);
    CountUpdate(run.workers, NotStored, w, next.workers[w]);
  }

  lemma StepTallies(maxIdle: nat, run: Run, tally: Tally, e: Event, next: Run)
    requires Tallies(run, tally) && next == Next(maxIdle, run, e)
    ensures Tallies(next, CountEvent(maxIdle, tally, run, e))
  {
    var more := CountEvent(maxIdle, Tally(0, 0, 0, 0, 0), run, e);
    assert CountEvent(maxIdle, tally, run, e) == AddTallies(tally, more);
    if e.Worker? {
      EventAdds(maxIdle, run, e, next);
      if next != run {
        AddsTallies(run, tally, next, e.w, more);
      }
    }
  }

  lemma {:induction false} AlwaysTallies(maxIdle: nat, start: Run, events: seq<Event>, k: nat)
    requires k <= |events| && Tallies(start, Tally(0, 0, 0, 0, 0))
    ensures Tallies(After(maxIdle, start, events, k), TallyOf(maxIdle, start, events, k))
  {
    if k > 0 {
      AlwaysTallies(maxIdle, start, events, k - 1);
      StepTallies(maxIdle, After(maxIdle, start, events, k - 1), TallyOf(maxIdle, start, events, k - 1),
                  events[k - 1], After(maxIdle, start, events, k));
    }
  }

  /**
   Every answer counts, whatever the interleaving and whatever else happens to the pool; and when all workers are gone,
   opened is how many tunnels the pool took, and failed all the rest: the workers that the limiter turned away, the
   attempts without a tunnel, and the tunnels that the pool refused.
   */
  lemma EveryAnswerCounts(poolMax: nat, config: Config, pool: Pool, target: int, events: seq<Event>, k: nat)
    requires config.Valid() && |pool.queue| < config.ClampTargetIdle(target) && k <= |events|
    ensures var start := StartRun(config, pool, target);
            var run, tally := After(poolMax, start, events, k), TallyOf(poolMax, start, events, k);
            && Tallies(run, tally)
            && (Over(run) ==>
                  && run.openedCount == tally.taken && tally.put == tally.produced
                  && run.failedCount == tally.turnedAway + tally.noTunnel + (tally.put - tally.taken))
  {
    var start := StartRun(config, pool, target);
    CountBound(start.workers, Holds);
    CountBound(start.workers, Stored);
    CountBound(start.workers, NotStored);
    AlwaysTallies(poolMax, start, events, k);
    var run := After(poolMax, start, events, k);
    CountBound(run.workers, Holds);
    CountBound(run.workers, Stored);
    CountBound(run.workers, NotStored);
  }

  /** Without other users of the pool, it grows by what is stored under ids that were not idle. */
  predicate PoolAccounted(run: Run, before: int) {
    |run.pool.queue| + run.replacedCount == before + run.openedCount + Count(run.workers, Stored)
  }

  lemma StepGrowsPool(maxIdle: nat, run: Run, w: nat, move: Move, before: int)
    requires PoolAccounted(run, before)
    ensures PoolAccounted(Step(maxIdle, run, w, move), before)
  {
    if w < |run.workers| {
      var next := Step(maxIdle, run, w, move);
      if next != run {
        CountUpdate(run.workers, Stored, w, next.workers[w]);
        if run.workers[w].Holding? {
          PutGrows(maxIdle, run.pool, run.workers[w].tunnel, move.state, move.now);
        }
      }
    }
  }

  lemma {:induction false} PoolAlwaysAccounted(maxIdle: nat, start: Run, events: seq<Event>, k: nat, before: int)
    requires k <= |events| && PoolAccounted(start, before) && forall i :: 0 <= i < k ==> events[i].Worker?
    ensures PoolAccounted(After(maxIdle, start, events, k), before)
  {
    if k > 0 {
      PoolAlwaysAccounted(maxIdle, start, events, k - 1, before);
      StepGrowsPool(maxIdle, After(maxIdle, start, events, k - 1), events[k - 1].w, events[k - 1].move, before);
    }
  }

  lemma StoredHaveJobs(workers: seq<Phase>)
    ensures Count(workers, Stored) <= Count(workers, HasJob)
  {
  }

  /**
   Without other users of the pool, idle never passes the effective target. When all workers are gone, idle is short of
   the target by exactly the failures, the tunnels whose id was idle before, and the jobs left over; so with new ids it
   reaches the target exactly if nothing fails.
   */
  lemma IdleReachesTarget(poolMax: nat, config: Config, pool: Pool, target: int, events: seq<Event>, k: nat)
    requires config.Valid() && |pool.queue| < config.ClampTargetIdle(target) && k <= |events|
    requires forall i :: 0 <= i < k ==> events[i].Worker?
    ensures var run := After(poolMax, StartRun(config, pool, target), events, k);
            && |run.pool.queue| <= config.ClampTargetIdle(target)
            && (Over(run) ==>
                  |run.pool.queue| == config.ClampTargetIdle(target) - run.failedCount - run.replacedCount - run.jobs)
            && (Over(run) && run.replacedCount == 0 ==>
                  (|run.pool.queue| == config.ClampTargetIdle(target) <==> run.failedCount == 0))
  {
    var start, shortfall := StartRun(config, pool, target), config.ClampTargetIdle(target) - |pool.queue|;
    StartAccounts(config, pool, target);
    AlwaysAccounted(poolMax, start, events, k, shortfall);
    PoolAlwaysAccounted(poolMax, start, events, k, |pool.queue|);
    CountsMatchShortfall(poolMax, config, pool, target, events, k);
    var run := After(poolMax, start, events, k);
    assert JobsAccounted(run, shortfall);
    StoredHaveJobs(run.workers);
    if Over(run) {
      CountBound(run.workers, Stored);
    }
  }

  /** What is left to do: no worker can go round for ever. */
  function Work(run: Run): nat {
    6 * run.jobs + TotalWeight(run.workers)
  }

  lemma StepsMakeProgress(maxIdle: nat, run: Run, w: nat, move: Move, next: Run)
    requires next == Step(maxIdle, run, w, move)
    ensures next != run ==> Work(next) < Work(run)
  {
    if next != run {
      WeightUpdate(run.workers, w, next.workers[w]);
    }
  }

  /** The number of events among the first `k` that change something. */
  function Changes(maxIdle: nat, start: Run, events: seq<Event>, k: nat): nat
    requires k <= |events|
  {
    if k == 0 then 0
    else
      Changes(maxIdle, start, events, k - 1)
      + if After(maxIdle, start, events, k) != After(maxIdle, start, events, k - 1) then 1 else 0
  }

  lemma {:induction false} ChangesAreBounded(maxIdle: nat, start: Run, events: seq<Event>, k: nat)
    requires k <= |events| && forall i :: 0 <= i < k ==> events[i].Worker?
    ensures Changes(maxIdle, start, events, k) + Work(After(maxIdle, start, events, k)) <= Work(start)
  {
    if k > 0 {
      ChangesAreBounded(maxIdle, start, events, k - 1);
      StepsMakeProgress(maxIdle, After(maxIdle, start, events, k - 1), events[k - 1].w, events[k - 1].move,
                        After(maxIdle, start, events, k));
    }
  }

  lemma ReadyWeight(workers: seq<Phase>)
    requires forall w :: 0 <= w < |workers| ==> workers[w] == Ready
    ensures TotalWeight(workers) == |workers|
  {
  }

  /** A refill ends: its workers take no more than 6 steps per job and one more each, however they interleave. */
  lemma RefillEnds(poolMax: nat, config: Config, pool: Pool, target: int, events: seq<Event>, k: nat)
    requires config.Valid() && |pool.queue| < config.ClampTargetIdle(target) && k <= |events|
    requires forall i :: 0 <= i < k ==> events[i].Worker?
    ensures Changes(poolMax, StartRun(config, pool, target), events, k)
         <= 6 * (config.ClampTargetIdle(target) - |pool.queue|) + config.maxInFlight
  {
    ChangesAreBounded(poolMax, StartRun(config, pool, target), events, k);
    ReadyWeight(StartRun(config, pool, target).workers);
  }

  /** A worker that is not gone can always move on, given an answer from the limiter or the producer. */
  lemma NobodyIsStuck(maxIdle: nat, run: Run, ok: bool, result: Option<Tunnel>, state: TunnelState, now: Time)
    requires !Over(run)
    ensures exists w: nat, move :: w < |run.workers| && Step(maxIdle, run, w, move) != run
              && move in {TakeJob, LimiterReturns(ok), OpenReturns(result), Store(state, now), Report}
  {
    var w: nat :| w < |run.workers| && !run.workers[w].Drained? && !run.workers[w].Refused?;
    var move := match run.workers[w]
      case Ready => TakeJob
      case Limited => LimiterReturns(ok)
      case Opening => OpenReturns(result)
      case Holding(_) => Store(state, now)
      case _ => Report;
    assert Step(maxIdle, run, w, move).workers[w] != run.workers[w];
  }
}
