/**
 Several refills of one controller at a time (ltfp/transport/refill_controller.go): requests with different ids are
 served concurrently, each by its own workers, on one pool.
 */
module ConcurrentRefills {
  import opened Results
  import opened Refill
  import opened TunnelPool
  import Runs

  /**
   The shared pool, and the refills that have been started, in that order, with what each was short of. The pool of a
   run is the one it saw last and means nothing. `highest` is the largest effective target so far, or the number of idle
   tunnels at first.
   */
  datatype Controller = Controller(pool: Pool, runs: seq<Run>, shortfalls: seq<nat>, highest: nat)

  /** A refill is started; worker `w` of refill `i` moves; or something else happens to the pool. */
  datatype Event = StartRefill(target: int) | Act(i: nat, w: nat, move: Move) | Elsewhere(pool: Pool)

  type ValidConfig = c: Config | c.Valid() witness Config(0, 1, 1, 1.0, 1, 1)

  function StartStep(config: ValidConfig, c: Controller, target: int): Controller {
    var effective := config.ClampTargetIdle(target);
    if |c.pool.queue| >= effective then c
    else
      c.(runs := c.runs + [StartRun(config, c.pool, target)], shortfalls := c.shortfalls + [effective - |c.pool.queue|],
         highest := if c.highest < effective then effective else c.highest)
  }

  /** What the move makes of the refill, on the shared pool. */
  function Moving(maxIdle: nat, c: Controller, i: nat, w: nat, move: Move): Run
    requires i < |c.runs|
  {
    Step(maxIdle, c.runs[i].(pool := c.pool), w, move)
  }

  function ActStep(maxIdle: nat, c: Controller, i: nat, w: nat, move: Move): Controller {
    if i >= |c.runs| then c
    else
      var next := Moving(maxIdle, c, i, w, move);
      c.(pool := next.pool, runs := c.runs[i := next])
  }

  function JointStep(config: ValidConfig, maxIdle: nat, c: Controller, e: Event): Controller {
    match e
    case StartRefill(target) => StartStep(config, c, target)
    case Act(i, w, move) => ActStep(maxIdle, c, i, w, move)
    case Elsewhere(pool) => c.(pool := pool)
  }

  function Stepping(config: ValidConfig, maxIdle: nat): (Controller, Event) -> Controller {
    (c: Controller, e: Event) => JointStep(config, maxIdle, c, e)
  }

  function Begin(pool: Pool): Controller {
    Controller(pool, [], [], |pool.queue|)
  }

  function JointlyAfter(config: ValidConfig, maxIdle: nat, pool: Pool, events: seq<Event>, k: nat): Controller
    requires k <= |events|
  {
    Runs.Run(Stepping(config, maxIdle), Begin(pool), events, k)
  }

  // ---------------------------------------------------------------------------------------------
  // Sums over refills
  // ---------------------------------------------------------------------------------------------

  function Sum(runs: seq<Run>, f: Run -> int): int {
    if runs == [] then 0 else f(runs[0]) + Sum(runs[1..], f)
  }

  lemma {:induction false} SumUpdate(runs: seq<Run>, f: Run -> int, i: nat, run: Run)
    requires i < |runs|
    ensures Sum(runs[i := run], f) == Sum(runs, f) - f(runs[i]) + f(run)
  {
    if i > 0 {
      SumUpdate(runs[1..], f, i - 1, run);
      assert runs[i := run][1..] == runs[1..][i - 1 := run];
    } else {
      assert runs[i := run][1..] == runs[1..];
    }
  }

  lemma {:induction false} SumSnoc(runs: seq<Run>, f: Run -> int, run: Run)
    ensures Sum(runs + [run], f) == Sum(runs, f) + f(run)
  {
    if runs == [] {
      assert [run][1..] == [];
    } else {
      SumSnoc(runs[1..], f, run);
      assert (runs + [run])[1..] == runs[1..] + [run];
    }
  }

  lemma {:induction false} SumAtMost(runs: seq<Run>, f: Run -> int, g: Run -> int)
    requires forall run :: run in runs ==> f(run) <= g(run)
    ensures Sum(runs, f) <= Sum(runs, g)
  {
    if runs != [] {
      SumAtMost(runs[1..], f, g);
    }
  }

  function Scaled(f: Run -> int, x: int): Run -> int {
    (run: Run) => f(run) * x
  }

  lemma {:induction false} SumScaled(runs: seq<Run>, f: Run -> int, x: int)
    ensures Sum(runs, Scaled(f, x)) == Sum(runs, f) * x
  {
    if runs != [] {
      SumScaled(runs[1..], f, x);
      var rest := Sum(runs[1..], f);
      assert (f(runs[0]) + rest) * x == f(runs[0]) * x + rest * x;
    }
  }

  lemma {:induction false} SumConstant(runs: seq<Run>, f: Run -> int, x: int)
    requires forall run :: run in runs ==> f(run) == x
    ensures Sum(runs, f) == |runs| * x
  {
    if runs != [] {
      SumConstant(runs[1..], f, x);
      assert |runs| * x == |runs[1..]| * x + x;
    }
  }

  // ---------------------------------------------------------------------------------------------
  // Each refill by itself
  // ---------------------------------------------------------------------------------------------

  predicate WellAt(config: ValidConfig, c: Controller, i: nat)
    requires i < |c.runs| && i < |c.shortfalls|
  {
    JobsAccounted(c.runs[i], c.shortfalls[i]) && 0 < |c.runs[i].workers| <= config.maxInFlight
  }

  /** Every refill has its jobs accounted for. */
  ghost predicate AllWell(config: ValidConfig, c: Controller) {
    |c.shortfalls| == |c.runs| && forall i: nat :: i < |c.runs| ==> WellAt(config, c, i)
  }

  lemma StartKeepsWell(config: ValidConfig, c: Controller, target: int)
    requires AllWell(config, c)
    ensures AllWell(config, StartStep(config, c, target))
  {
    var next := StartStep(config, c, target);
    if next != c {
      StartAccounts(config, c.pool, target);
      forall i: nat | i < |next.runs|
        ensures WellAt(config, next, i)
      {
        assert i < |c.runs| ==> WellAt(config, c, i);
      }
    }
  }

  lemma ActKeepsWell(config: ValidConfig, maxIdle: nat, c: Controller, i: nat, w: nat, move: Move)
    requires AllWell(config, c)
    ensures AllWell(config, ActStep(maxIdle, c, i, w, move))
  {
    if i < |c.runs| {
      assert WellAt(config, c, i);
      var next := Moving(maxIdle, c, i, w, move);
      StepAccounts(maxIdle, c.runs[i].(pool := c.pool), Worker(w, move), next, c.shortfalls[i]);
      var c' := ActStep(maxIdle, c, i, w, move);
      forall j: nat | j < |c'.runs|
        ensures WellAt(config, c', j)
      {
        assert WellAt(config, c, j);
      }
    }
  }

  lemma StepKeepsWell(config: ValidConfig, maxIdle: nat, c: Controller, e: Event)
    requires AllWell(config, c)
    ensures AllWell(config, JointStep(config, maxIdle, c, e))
  {
    match e
    case StartRefill(target) => StartKeepsWell(config, c, target);
    case Act(i, w, move) => ActKeepsWell(config, maxIdle, c, i, w, move);
    case Elsewhere(pool) =>
      forall i: nat | i < |c.runs| ensures WellAt(config, c.(pool := pool), i) {
        assert WellAt(config, c, i);
      }
  }

  ghost function Well(config: ValidConfig): Controller -> bool {
    (c: Controller) => AllWell(config, c)
  }

  function Always(): (Controller, Event) -> bool {
    (c: Controller, e: Event) => true
  }

  lemma StepsKeepWell(config: ValidConfig, maxIdle: nat)
    ensures Runs.Keeps(Stepping(config, maxIdle), Well(config), Always())
  {
    var step, well, always := Stepping(config, maxIdle), Well(config), Always();
    forall c, e | well(c) && always(c, e)
      ensures well(step(c, e))
    {
      StepKeepsWell(config, maxIdle, c, e);
    }
  }

  lemma AlwaysWell(config: ValidConfig, maxIdle: nat, pool: Pool, events: seq<Event>, k: nat)
    requires k <= |events|
    ensures AllWell(config, JointlyAfter(config, maxIdle, pool, events, k))
  {
    StepsKeepWell(config, maxIdle);
    Runs.Invariant(Stepping(config, maxIdle), Begin(pool), events, Well(config), Always(), k);
  }

  // ---------------------------------------------------------------------------------------------
  // Concurrent opens
  // ---------------------------------------------------------------------------------------------

  function Opens(run: Run): int {
    Count(run.workers, IsOpening)
  }

  function Working(run: Run): int {
    if Over(run) then 0 else 1
  }

  /** The tunnels that are being opened at the moment. */
  function OpensOfAll(c: Controller): int {
    Sum(c.runs, Opens)
  }

  /** The refills that still have a worker. */
  function UnderWay(c: Controller): int {
    Sum(c.runs, Working)
  }

  lemma WellBounds(config: ValidConfig, c: Controller)
    requires AllWell(config, c)
    ensures OpensOfAll(c) <= UnderWay(c) * config.maxInFlight
  {
    var limits := Scaled(Working, config.maxInFlight);
    forall run | run in c.runs
      ensures Opens(run) <= limits(run)
    {
      var i: nat :| i < |c.runs| && c.runs[i] == run;
      assert WellAt(config, c, i);
      AccountedMatches(run, c.shortfalls[i], config.maxInFlight);
    }
    SumAtMost(c.runs, Opens, limits);
    SumScaled(c.runs, Working, config.maxInFlight);
  }

  /**
   In every reachable state of the controller each refill opens and fails no more than it was short of, and all together
   have at most the limit times the number of refills under way being opened.
   */
  lemma OpensOfSeveral(config: ValidConfig, maxIdle: nat, pool: Pool, events: seq<Event>, k: nat)
    requires k <= |events|
    ensures var c := JointlyAfter(config, maxIdle, pool, events, k);
            && OpensOfAll(c) <= UnderWay(c) * config.maxInFlight
            && |c.runs| == |c.shortfalls|
            && forall i :: 0 <= i < |c.runs| ==> CountsMatch(c.runs[i], c.shortfalls[i], config.maxInFlight)
  {
    AlwaysWell(config, maxIdle, pool, events, k);
    var c := JointlyAfter(config, maxIdle, pool, events, k);
    WellBounds(config, c);
    forall i: nat | i < |c.runs|
      ensures CountsMatch(c.runs[i], c.shortfalls[i], config.maxInFlight)
    {
      assert WellAt(config, c, i);
      AccountedMatches(c.runs[i], c.shortfalls[i], config.maxInFlight);
    }
  }

  /** The limiter lets a worker go on, which begins to open a tunnel. */
  predicate Releases(c: Controller, e: Event) {
    && e.Act? && e.i < |c.runs| && e.w < |c.runs[e.i].workers|
    && c.runs[e.i].workers[e.w].Limited? && e.move == LimiterReturns(true)
  }

  lemma MoveOpens(maxIdle: nat, run: Run, w: nat, move: Move)
    ensures var next := Step(maxIdle, run, w, move);
            if w < |run.workers| && run.workers[w].Limited? && move == LimiterReturns(true)
            then Opens(next) == Opens(run) + 1 else Opens(next) <= Opens(run)
  {
    if w < |run.workers| {
      var next := Step(maxIdle, run, w, move);
      if next.workers != run.workers {
        CountUpdate(run.workers, IsOpening, w, next.workers[w]);
        assert next.workers == run.workers[w := next.workers[w]];
      }
    }
  }

  lemma NewRunOpensNothing(config: ValidConfig, pool: Pool, target: int)
    requires |pool.queue| < config.ClampTargetIdle(target)
    ensures Opens(StartRun(config, pool, target)) == 0
  {
    CountBound(StartRun(config, pool, target).workers, IsOpening);
  }

  lemma StepOpens(config: ValidConfig, maxIdle: nat, c: Controller, e: Event)
    ensures var next := JointStep(config, maxIdle, c, e);
            if Releases(c, e) then OpensOfAll(next) == OpensOfAll(c) + 1 else OpensOfAll(next) <= OpensOfAll(c)
  {
    match e
    case StartRefill(target) =>
      if |c.pool.queue| < config.ClampTargetIdle(target) {
        NewRunOpensNothing(config, c.pool, target);
        SumSnoc(c.runs, Opens, StartRun(config, c.pool, target));
      }
    case Act(i, w, move) =>
      if i < |c.runs| {
        MoveOpens(maxIdle, c.runs[i].(pool := c.pool), w, move);
        SumUpdate(c.runs, Opens, i, Moving(maxIdle, c, i, w, move));
      }
    case Elsewhere(pool) =>
  }

  predicate WithinLimit(limit: int, c: Controller) {
    OpensOfAll(c) <= limit
  }

  /** The limiter lets a worker go on while as many tunnels as allowed are being opened already. */
  predicate Exceeds(limit: int, c: Controller, e: Event) {
    Releases(c, e) && OpensOfAll(c) == limit
  }

  function Within(limit: int): Controller -> bool {
    (c: Controller) => WithinLimit(limit, c)
  }

  function Exceeding(limit: int): (Controller, Event) -> bool {
    (c: Controller, e: Event) => Exceeds(limit, c, e)
  }

  lemma StepExceeds(config: ValidConfig, maxIdle: nat, limit: int, c: Controller, e: Event)
    requires WithinLimit(limit, c)
    ensures WithinLimit(limit, JointStep(config, maxIdle, c, e)) <==> !Exceeds(limit, c, e)
  {
    StepOpens(config, maxIdle, c, e);
  }

  lemma StepsExceed(config: ValidConfig, maxIdle: nat, limit: int)
    ensures Runs.KeepsUnless(Stepping(config, maxIdle), Within(limit), Exceeding(limit))
  {
    forall c, e | Within(limit)(c)
      ensures Within(limit)(Stepping(config, maxIdle)(c, e)) <==> !Exceeding(limit)(c, e)
    {
      StepExceeds(config, maxIdle, limit, c, e);
    }
  }

  /**
   The limit on concurrent opens holds for the controller throughout a run exactly if the limiter never lets a worker go
   on while that many tunnels are being opened. Nothing in the code sees to that across refills.
   */
  lemma OpenLimitHoldsExactly(config: ValidConfig, maxIdle: nat, pool: Pool, events: seq<Event>, n: nat)
    requires n <= |events|
    ensures Runs.HoldsThroughout(Stepping(config, maxIdle), Begin(pool), events, Within(config.maxInFlight), n)
            <==> Runs.NeverBroken(Stepping(config, maxIdle), Begin(pool), events, Exceeding(config.maxInFlight), n)
  {
    StepsExceed(config, maxIdle, config.maxInFlight);
    Runs.UnlessBroken(Stepping(config, maxIdle), Begin(pool), events, Within(config.maxInFlight),
                      Exceeding(config.maxInFlight), n);
  }

  // ---------------------------------------------------------------------------------------------
  // Idle tunnels
  // ---------------------------------------------------------------------------------------------

  /** What a refill has added to the idle tunnels. */
  function Gain(run: Run): int {
    run.openedCount + Count(run.workers, Stored) - run.replacedCount
  }

  lemma MoveGains(maxIdle: nat, run: Run, w: nat, move: Move)
    ensures var next := Step(maxIdle, run, w, move);
            |next.pool.queue| - Gain(next) == |run.pool.queue| - Gain(run)
  {
    StepGrowsPool(maxIdle, run, w, move, |run.pool.queue| - Gain(run));
  }

  function Elsewheres(): (Controller, Event) -> int {
    (c: Controller, e: Event) => if e.Elsewhere? then |e.pool.queue| - |c.pool.queue| else 0
  }

  /** Idle tunnels that no refill has added. */
  function Others(): Controller -> int {
    (c: Controller) => |c.pool.queue| - Sum(c.runs, Gain)
  }

  function Any(): Controller -> bool {
    (c: Controller) => true
  }

  lemma NewRunGainsNothing(config: ValidConfig, pool: Pool, target: int)
    requires |pool.queue| < config.ClampTargetIdle(target)
    ensures Gain(StartRun(config, pool, target)) == 0
  {
    StartAccounts(config, pool, target);
  }

  lemma StepGains(config: ValidConfig, maxIdle: nat, c: Controller, e: Event)
    ensures Others()(JointStep(config, maxIdle, c, e)) == Others()(c) + Elsewheres()(c, e)
  {
    match e
    case StartRefill(target) =>
      if |c.pool.queue| < config.ClampTargetIdle(target) {
        NewRunGainsNothing(config, c.pool, target);
        SumSnoc(c.runs, Gain, StartRun(config, c.pool, target));
      }
    case Act(i, w, move) =>
      if i < |c.runs| {
        MoveGains(maxIdle, c.runs[i].(pool := c.pool), w, move);
        SumUpdate(c.runs, Gain, i, Moving(maxIdle, c, i, w, move));
      }
    case Elsewhere(pool) =>
  }

  lemma StepsGain(config: ValidConfig, maxIdle: nat)
    ensures Runs.Costs(Stepping(config, maxIdle), Any(), Others(), Elsewheres())
  {
    forall c, e
      ensures Others()(Stepping(config, maxIdle)(c, e)) == Others()(c) + Elsewheres()(c, e)
    {
      StepGains(config, maxIdle, c, e);
    }
  }

  /**
   The idle tunnels are those that were there at first, what the refills have added, and what others have changed; a
   refill adds what it stored under new ids, at most what it was short of when it started.
   */
  lemma IdleTogether(config: ValidConfig, maxIdle: nat, pool: Pool, events: seq<Event>, k: nat)
    requires k <= |events|
    ensures var c := JointlyAfter(config, maxIdle, pool, events, k);
            && |c.pool.queue| == |pool.queue| + Sum(c.runs, Gain)
                                 + Runs.Total(Stepping(config, maxIdle), Begin(pool), events, Elsewheres(), k)
            && |c.runs| == |c.shortfalls|
            && forall i :: 0 <= i < |c.runs| ==> Gain(c.runs[i]) <= c.shortfalls[i]
  {
    StepsGain(config, maxIdle);
    Runs.CostsAddUp(Stepping(config, maxIdle), Begin(pool), events, Any(), Others(), Elsewheres(), k);
    AlwaysWell(config, maxIdle, pool, events, k);
    var c := JointlyAfter(config, maxIdle, pool, events, k);
    assert Others()(c) == |c.pool.queue| - Sum(c.runs, Gain) && Others()(Begin(pool)) == |pool.queue|;
    forall i: nat | i < |c.runs|
      ensures Gain(c.runs[i]) <= c.shortfalls[i]
    {
      assert WellAt(config, c, i);
      StoredHaveJobs(c.runs[i].workers);
    }
  }

  predicate BelowHighest(c: Controller) {
    |c.pool.queue| <= c.highest
  }

  /** A worker stores a tunnel under a new id though the highest target is reached, or others add too many. */
  predicate Overshoots(maxIdle: nat, c: Controller, e: Event) {
    match e
    case StartRefill(_) => false
    case Elsewhere(pool) => |pool.queue| > c.highest
    case Act(i, w, move) =>
      && move.Store? && i < |c.runs| && w < |c.runs[i].workers| && c.runs[i].workers[w].Holding?
      && |c.pool.queue| == c.highest && Key(c.runs[i].workers[w].tunnel) !in QueueKeys(c.pool.queue)
      && PutIdleSpec(maxIdle, c.pool, c.runs[i].workers[w].tunnel, move.state, move.now).1 == None
  }

  function Overshooting(maxIdle: nat): (Controller, Event) -> bool {
    (c: Controller, e: Event) => Overshoots(maxIdle, c, e)
  }

  lemma MoveGrows(maxIdle: nat, run: Run, w: nat, move: Move)
    ensures var next := Step(maxIdle, run, w, move);
            |next.pool.queue| == |run.pool.queue|
              + if && move.Store? && w < |run.workers| && run.workers[w].Holding?
                   && Key(run.workers[w].tunnel) !in QueueKeys(run.pool.queue)
                   && PutIdleSpec(maxIdle, run.pool, run.workers[w].tunnel, move.state, move.now).1 == None
                then 1 else 0
  {
    if move.Store? && w < |run.workers| && run.workers[w].Holding? {
      PutGrows(maxIdle, run.pool, run.workers[w].tunnel, move.state, move.now);
    }
  }

  lemma StepOvershoots(config: ValidConfig, maxIdle: nat, c: Controller, e: Event)
    requires BelowHighest(c)
    ensures BelowHighest(JointStep(config, maxIdle, c, e)) <==> !Overshoots(maxIdle, c, e)
  {
    if e.Act? && e.i < |c.runs| {
      MoveGrows(maxIdle, c.runs[e.i].(pool := c.pool), e.w, e.move);
    }
  }

  lemma StepsOvershoot(config: ValidConfig, maxIdle: nat)
    ensures Runs.KeepsUnless(Stepping(config, maxIdle), BelowHighest, Overshooting(maxIdle))
  {
    forall c, e | BelowHighest(c)
      ensures BelowHighest(Stepping(config, maxIdle)(c, e)) <==> !Overshooting(maxIdle)(c, e)
    {
      StepOvershoots(config, maxIdle, c, e);
    }
  }

  /**
   Idle stays at or below the highest effective target throughout a run exactly if no worker stores a tunnel under a new
   id once that target is reached, and nobody else adds too many. A refill by itself never does that; two may.
   */
  lemma TargetHoldsExactly(config: ValidConfig, maxIdle: nat, pool: Pool, events: seq<Event>, n: nat)
    requires n <= |events|
    ensures Runs.HoldsThroughout(Stepping(config, maxIdle), Begin(pool), events, BelowHighest, n)
            <==> Runs.NeverBroken(Stepping(config, maxIdle), Begin(pool), events, Overshooting(maxIdle), n)
  {
    StepsOvershoot(config, maxIdle);
    Runs.UnlessBroken(Stepping(config, maxIdle), Begin(pool), events, BelowHighest, Overshooting(maxIdle), n);
  }

  // ---------------------------------------------------------------------------------------------
  // Runs that use this up
  // ---------------------------------------------------------------------------------------------

  predicate Reaches(config: ValidConfig, maxIdle: nat, pool: Pool, events: seq<Event>, c: Controller) {
    c == JointlyAfter(config, maxIdle, pool, events, |events|)
  }

  lemma OneMoreEvent(config: ValidConfig, maxIdle: nat, pool: Pool, events: seq<Event>, c: Controller, e: Event)
    requires Reaches(config, maxIdle, pool, events, c)
    ensures Reaches(config, maxIdle, pool, events + [e], JointStep(config, maxIdle, c, e))
  {
    Runs.RunSnoc(Stepping(config, maxIdle), Begin(pool), events, e, |events|);
  }

  /** A refill as it is started: nobody has a job yet, and there is one for everybody. */
  predicate Untouched(run: Run) {
    |run.workers| <= run.jobs && forall w :: 0 <= w < |run.workers| ==> run.workers[w] == Ready
  }

  /** The first `n` workers are opening a tunnel each, the others have not begun. */
  predicate FirstOpening(run: Run, start: Run, n: nat) {
    && n <= |start.workers| && |run.workers| == |start.workers| && run.jobs == start.jobs - n
    && (forall w :: 0 <= w < n ==> run.workers[w].Opening?)
    && (forall w :: n <= w < |start.workers| ==> run.workers[w] == Ready)
  }

  lemma OneMoreOpening(maxIdle: nat, c: Controller, i: nat, start: Run, n: nat)
    requires i < |c.runs| && Untouched(start) && FirstOpening(c.runs[i], start, n) && n < |start.workers|
    ensures var c' := ActStep(maxIdle, ActStep(maxIdle, c, i, n, TakeJob), i, n, LimiterReturns(true));
            && c'.pool == c.pool && |c'.runs| == |c.runs| && FirstOpening(c'.runs[i], start, n + 1)
            && forall j :: 0 <= j < |c.runs| && j != i ==> c'.runs[j] == c.runs[j]
  {
    var c1 := ActStep(maxIdle, c, i, n, TakeJob);
    assert c1.runs[i] == MoveTo(c.runs[i].(pool := c.pool), n, Limited).(jobs := c.runs[i].jobs - 1);
  }

  lemma OpenWorkers(config: ValidConfig, maxIdle: nat, pool: Pool, events: seq<Event>, c: Controller, i: nat, n: nat)
    returns (events': seq<Event>, c': Controller)
    requires Reaches(config, maxIdle, pool, events, c)
    requires i < |c.runs| && Untouched(c.runs[i]) && n <= |c.runs[i].workers|
    ensures Reaches(config, maxIdle, pool, events', c')
    ensures c'.pool == c.pool && |c'.runs| == |c.runs| && FirstOpening(c'.runs[i], c.runs[i], n)
    ensures forall j :: 0 <= j < |c.runs| && j != i ==> c'.runs[j] == c.runs[j]
  {
    events', c' := events, c;
    if n > 0 {
      events', c' := OpenWorkers(config, maxIdle, pool, events, c, i, n - 1);
      OneMoreOpening(maxIdle, c', i, c.runs[i], n - 1);
      var take, go := Act(i, n - 1, TakeJob), Act(i, n - 1, LimiterReturns(true));
      OneMoreEvent(config, maxIdle, pool, events', c', take);
      OneMoreEvent(config, maxIdle, pool, events' + [take], JointStep(config, maxIdle, c', take), go);
      events' := events' + [take] + [go];
      c' := JointStep(config, maxIdle, JointStep(config, maxIdle, c', take), go);
    }
  }

  predicate AllOpening(config: ValidConfig, run: Run) {
    |run.workers| == config.maxInFlight && forall w :: 0 <= w < |run.workers| ==> run.workers[w].Opening?
  }

  lemma StartIsUntouched(config: ValidConfig, pool: Pool, target: int)
    requires |pool.queue| < config.ClampTargetIdle(target)
    ensures Untouched(StartRun(config, pool, target))
    ensures config.maxInFlight <= config.ClampTargetIdle(target) - |pool.queue| ==>
              |StartRun(config, pool, target).workers| == config.maxInFlight
  {
  }

  lemma OpenTogether(config: ValidConfig, maxIdle: nat, pool: Pool, target: int, n: nat)
    returns (events: seq<Event>, c: Controller)
    requires config.maxInFlight <= config.ClampTargetIdle(target) - |pool.queue|
    ensures Reaches(config, maxIdle, pool, events, c)
    ensures c.pool == pool && |c.runs| == n && forall i :: 0 <= i < n ==> AllOpening(config, c.runs[i])
  {
    events, c := [], Begin(pool);
    if n > 0 {
      events, c := OpenTogether(config, maxIdle, pool, target, n - 1);
      var before := c;
      OneMoreEvent(config, maxIdle, pool, events, c, StartRefill(target));
      StartIsUntouched(config, pool, target);
      events, c := events + [StartRefill(target)], JointStep(config, maxIdle, c, StartRefill(target));
      assert c.runs == before.runs + [StartRun(config, pool, target)];
      events, c := OpenWorkers(config, maxIdle, pool, events, c, n - 1, config.maxInFlight);
      assert forall i :: 0 <= i < n - 1 ==> c.runs[i] == before.runs[i];
    }
  }

  lemma AllOpeningCounts(config: ValidConfig, run: Run)
    requires AllOpening(config, run)
    ensures Opens(run) == config.maxInFlight && Working(run) == 1
  {
    CountAll(run.workers);
    assert run.workers[0].Opening?;
  }

  lemma {:induction false} CountAll(workers: seq<Phase>)
    requires forall w :: 0 <= w < |workers| ==> workers[w].Opening?
    ensures Count(workers, IsOpening) == |workers|
  {
    if workers != [] {
      CountAll(workers[1..]);
    }
  }

  /** The bound is attained: for every n some joint run of n refills has n times the limit being opened at once. */
  lemma OpensAddUp(config: ValidConfig, maxIdle: nat, pool: Pool, target: int, n: nat) returns (events: seq<Event>)
    requires config.maxInFlight <= config.ClampTargetIdle(target) - |pool.queue|
    ensures var c := JointlyAfter(config, maxIdle, pool, events, |events|);
            UnderWay(c) == n && OpensOfAll(c) == n * config.maxInFlight
  {
    var c;
    events, c := OpenTogether(config, maxIdle, pool, target, n);
    forall run | run in c.runs
      ensures Opens(run) == config.maxInFlight && Working(run) == 1
    {
      AllOpeningCounts(config, run);
    }
    SumConstant(c.runs, Opens, config.maxInFlight);
    SumConstant(c.runs, Working, 1);
  }

  /** Tunnels under ids that are new to the pool and to each other. */
  ghost predicate NewTunnels(pool: Pool, tunnels: seq<Tunnel>) {
    && (forall i :: 0 <= i < |tunnels| ==>
          Key(tunnels[i]) != "" && Key(tunnels[i]) !in QueueKeys(pool.queue) && Key(tunnels[i]) !in pool.inUse)
    && (forall i, j :: 0 <= i < j < |tunnels| ==> Key(tunnels[i]) != Key(tunnels[j]))
  }

  /** Refill `i`, of one job, opens `tunnel` and stores it. */
  function Serve(maxIdle: nat, c: Controller, i: nat, tunnel: Tunnel, now: Time): Controller {
    var c1 := ActStep(maxIdle, ActStep(maxIdle, c, i, 0, TakeJob), i, 0, LimiterReturns(true));
    ActStep(maxIdle, ActStep(maxIdle, c1, i, 0, OpenReturns(Some(tunnel))), i, 0, Store(TunnelState.Idle, now))
  }

  lemma ServeStores(maxIdle: nat, c: Controller, i: nat, tunnel: Tunnel, now: Time)
    requires i < |c.runs| && Untouched(c.runs[i]) && |c.runs[i].workers| == 1
    ensures var c' := Serve(maxIdle, c, i, tunnel, now);
            && c'.pool == PutIdleSpec(maxIdle, c.pool, tunnel, TunnelState.Idle, now).0
            && c'.highest == c.highest && |c'.runs| == |c.runs|
            && forall j :: 0 <= j < |c.runs| && j != i ==> c'.runs[j] == c.runs[j]
  {
    var c1 := ActStep(maxIdle, ActStep(maxIdle, c, i, 0, TakeJob), i, 0, LimiterReturns(true));
    assert c1.runs[i].workers[0] == Phase.Opening && c1.pool == c.pool;
    var c2 := ActStep(maxIdle, c1, i, 0, OpenReturns(Some(tunnel)));
    assert c2.runs[i].workers[0] == Holding(tunnel) && c2.pool == c.pool;
  }

  lemma ServeIsReached(config: ValidConfig, maxIdle: nat, pool: Pool, events: seq<Event>, c: Controller, i: nat,
                       tunnel: Tunnel, now: Time) returns (events': seq<Event>)
    requires Reaches(config, maxIdle, pool, events, c)
    ensures Reaches(config, maxIdle, pool, events', Serve(maxIdle, c, i, tunnel, now))
  {
    var take, go := Act(i, 0, TakeJob), Act(i, 0, LimiterReturns(true));
    var open, store := Act(i, 0, OpenReturns(Some(tunnel))), Act(i, 0, Store(TunnelState.Idle, now));
    OneMoreEvent(config, maxIdle, pool, events, c, take);
    var c1 := JointStep(config, maxIdle, c, take);
    OneMoreEvent(config, maxIdle, pool, events + [take], c1, go);
    var c2 := JointStep(config, maxIdle, c1, go);
    OneMoreEvent(config, maxIdle, pool, events + [take] + [go], c2, open);
    var c3 := JointStep(config, maxIdle, c2, open);
    OneMoreEvent(config, maxIdle, pool, events + [take] + [go] + [open], c3, store);
    events' := events + [take] + [go] + [open] + [store];
  }

  /** `n` requests for one more tunnel each, all read the same number of idle ones. */
  lemma StartTogether(config: ValidConfig, maxIdle: nat, pool: Pool, n: nat) returns (events: seq<Event>, c: Controller)
    requires config.ClampTargetIdle(|pool.queue| + 1) == |pool.queue| + 1
    ensures Reaches(config, maxIdle, pool, events, c) && c.pool == pool
    ensures c.highest == |pool.queue| + if n == 0 then 0 else 1
    ensures |c.runs| == n && forall i :: 0 <= i < n ==> c.runs[i] == StartRun(config, pool, |pool.queue| + 1)
  {
    events, c := [], Begin(pool);
    if n > 0 {
      events, c := StartTogether(config, maxIdle, pool, n - 1);
      var start := StartRefill(|pool.queue| + 1);
      OneMoreEvent(config, maxIdle, pool, events, c, start);
      events, c := events + [start], JointStep(config, maxIdle, c, start);
    }
  }

  function KeysOf(tunnels: seq<Tunnel>): set<string> {
    set tunnel | tunnel in tunnels :: Key(tunnel)
  }

  /** The first `k` of the refills have stored their tunnel, the others have not begun. */
  ghost predicate Served(c: Controller, pool: Pool, tunnels: seq<Tunnel>, k: nat) {
    && k <= |tunnels| == |c.runs| && c.highest == |pool.queue| + 1
    && c.pool.inUse == pool.inUse && |c.pool.queue| == |pool.queue| + k
    && QueueKeys(c.pool.queue) == QueueKeys(pool.queue) + KeysOf(tunnels[..k])
    && forall i :: k <= i < |c.runs| ==> Untouched(c.runs[i]) && |c.runs[i].workers| == 1
  }

  lemma NextIsNew(pool: Pool, tunnels: seq<Tunnel>, k: nat)
    requires NewTunnels(pool, tunnels) && k < |tunnels|
    ensures Key(tunnels[k]) !in QueueKeys(pool.queue) + KeysOf(tunnels[..k])
    ensures KeysOf(tunnels[..k + 1]) == KeysOf(tunnels[..k]) + {Key(tunnels[k])}
  {
    assert tunnels[..k + 1] == tunnels[..k] + [tunnels[k]];
    forall tunnel | tunnel in tunnels[..k]
      ensures Key(tunnel) != Key(tunnels[k])
    {
      var i :| 0 <= i < k && tunnels[i] == tunnel;
    }
    assert forall tunnel :: tunnel in tunnels[..k + 1] <==> tunnel in tunnels[..k] || tunnel == tunnels[k];
  }

  lemma ServeNext(maxIdle: nat, c: Controller, pool: Pool, tunnels: seq<Tunnel>, now: Time, k: nat)
    requires NewTunnels(pool, tunnels) && |pool.queue| + |tunnels| <= maxIdle
    requires Served(c, pool, tunnels, k) && k < |tunnels|
    ensures Served(Serve(maxIdle, c, k, tunnels[k], now), pool, tunnels, k + 1)
  {
    NextIsNew(pool, tunnels, k);
    ServeStores(maxIdle, c, k, tunnels[k], now);
    SnocKeys(c.pool.queue, Entry(tunnels[k], now));
  }

  lemma ServeAll(config: ValidConfig, maxIdle: nat, pool: Pool, tunnels: seq<Tunnel>, now: Time, k: nat)
    returns (events: seq<Event>, c: Controller)
    requires config.ClampTargetIdle(|pool.queue| + 1) == |pool.queue| + 1
    requires tunnels != [] && NewTunnels(pool, tunnels) && |pool.queue| + |tunnels| <= maxIdle && k <= |tunnels|
    ensures Reaches(config, maxIdle, pool, events, c) && Served(c, pool, tunnels, k)
  {
    if k == 0 {
      events, c := StartTogether(config, maxIdle, pool, |tunnels|);
      StartIsUntouched(config, pool, |pool.queue| + 1);
      assert KeysOf(tunnels[..0]) == {};
    } else {
      var before;
      events, before := ServeAll(config, maxIdle, pool, tunnels, now, k - 1);
      ServeNext(maxIdle, before, pool, tunnels, now, k - 1);
      c := Serve(maxIdle, before, k - 1, tunnels[k - 1], now);
      events := ServeIsReached(config, maxIdle, pool, events, before, k - 1, tunnels[k - 1], now);
    }
  }

  /**
   What concurrent requests do to the idle target: any number of them that each ask for one tunnel more than there are,
   and read the same number, add a tunnel each, though the effective target of all is one more.
   */
  lemma TargetCanBePassed(config: ValidConfig, maxIdle: nat, pool: Pool, tunnels: seq<Tunnel>, now: Time)
    returns (events: seq<Event>)
    requires config.ClampTargetIdle(|pool.queue| + 1) == |pool.queue| + 1
    requires tunnels != [] && NewTunnels(pool, tunnels) && |pool.queue| + |tunnels| <= maxIdle
    ensures var c := JointlyAfter(config, maxIdle, pool, events, |events|);
            && |c.runs| == |tunnels| && c.highest == |pool.queue| + 1
            && |c.pool.queue| == |pool.queue| + |tunnels|
  {
    var c;
    events, c := ServeAll(config, maxIdle, pool, tunnels, now, |tunnels|);
  }
}
