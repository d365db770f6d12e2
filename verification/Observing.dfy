/** A whole run: one scheduler tick after another, each reading every source that the rules name. */
module Observing {
  import opened Text
  import opened Evidence
  import opened Decide
  import opened Schedule
  import opened Retry
  import Fetch

  // ---- the gaps of an observation ----

  function FirstGap(gaps: seq<Gap>, wanted: Gap -> bool): (r: Option<Gap>)
    ensures r.Some? ==> r.value in gaps && wanted(r.value)
    ensures r.None? ==> forall g | g in gaps :: !wanted(g)
  {
    if gaps == [] then None
    else if wanted(gaps[0]) then Some(gaps[0])
    else
      assert gaps == [gaps[0]] + gaps[1..];
      FirstGap(gaps[1..], wanted)
  }

  /** The gap that drives the schedule: one that waiting cannot fix, else one that it may, else the first. */
  function WorstGap(gaps: seq<Gap>): Option<Gap> {
    var terminal := FirstGap(gaps, (g: Gap) => !g.retryable && g.code != NotFound);
    var retryable := FirstGap(gaps, (g: Gap) => g.retryable);
    if terminal.Some? then terminal
    else if retryable.Some? then retryable
    else if gaps == [] then None
    else Some(gaps[0])
  }

  /** g is the first gap of its kind. */
  ghost predicate IsFirst(gaps: seq<Gap>, kind: Gap -> bool, g: Gap) {
    exists i | 0 <= i < |gaps| :: gaps[i] == g && kind(g) && forall j | 0 <= j < i :: !kind(gaps[j])
  }

  lemma {:induction false} FirstGapIsFirst(gaps: seq<Gap>, kind: Gap -> bool, g: Gap)
    ensures FirstGap(gaps, kind) == Some(g) ==> IsFirst(gaps, kind, g)
  {
    if gaps != [] && !kind(gaps[0]) && FirstGap(gaps, kind) == Some(g) {
      FirstGapIsFirst(gaps[1..], kind, g);
      var i :| 0 <= i < |gaps| - 1 && gaps[1..][i] == g && kind(g) && forall j | 0 <= j < i :: !kind(gaps[1..][j]);
      assert gaps[i + 1] == g;
      assert forall j | 0 < j < i + 1 :: gaps[j] == gaps[1..][j - 1];
    }
  }

  /** The first gap that waiting cannot fix, where there is one; else the first that it may; else the first of all. */
  lemma {:induction false} WorstGapExactly(gaps: seq<Gap>)
    ensures var worst := WorstGap(gaps);
      var fixed, fleeting := (g: Gap) => !g.retryable && !g.code.NotFound?, (g: Gap) => g.retryable;
      if exists g | g in gaps :: fixed(g) then worst.Some? && IsFirst(gaps, fixed, worst.value)
      else if exists g | g in gaps :: fleeting(g) then worst.Some? && IsFirst(gaps, fleeting, worst.value)
      else worst == if gaps == [] then None else Some(gaps[0])
  {
    var terminal, retryable := (g: Gap) => !g.retryable && g.code != NotFound, (g: Gap) => g.retryable;
    if FirstGap(gaps, terminal).Some? { FirstGapIsFirst(gaps, terminal, FirstGap(gaps, terminal).value); }
    if FirstGap(gaps, retryable).Some? { FirstGapIsFirst(gaps, retryable, FirstGap(gaps, retryable).value); }
  }

  /** As the connectors make their gaps. */
  predicate IsMade(g: Gap) {
    g.retryable <==> g.code in {RateLimited, ProviderUnavailable}
  }

  /** One source that waiting cannot fix stops the schedule of the whole run, and nothing else does. */
  lemma {:induction false} TerminalGapStops(gaps: seq<Gap>)
    requires forall g | g in gaps :: IsMade(g)
    ensures IsTerminalGap(WorstGap(gaps)) <==> exists g | g in gaps :: IsTerminalGap(Some(g))
  {
    forall g | g in gaps
      ensures IsTerminalGap(Some(g)) <==> !g.retryable && g.code != NotFound
    {
    }
  }

  // ---- one source in one observation ----

  /** What a source does: it is not called at all (no usable connection, no budget left in the tick, nothing to look
      up); its one call reports a gap instead of reading; or its guarded read runs, after a look-up of the account when
      the connection asks for one, and `found` is what a read without a transport problem reports. */
  datatype Access<T> =
    | Skipped(gap: Gap)
    | Reported(gap: Gap)
    | Reads(lookup: bool, provider: nat -> Outcome<T>, jitter: nat -> real, found: seq<Gap>)

  function Cost<T>(access: Access<T>): nat {
    match access
    case Skipped(_) => 0
    case Reported(_) => 1
    case Reads(lookup, provider, _, _) => (if lookup then 1 else 0) + Attempts(provider, 0, 0)
  }

  function GapsOf<T>(access: Access<T>): seq<Gap> {
    match access
    case Skipped(gap) => [gap]
    case Reported(gap) => [gap]
    case Reads(_, provider, _, found) =>
      var last := provider(Attempts(provider, 0, 0) - 1);
      if last.gap.Some? then [last.gap.value] else found
  }

  function CostAll<T>(access: Source -> Access<T>, sources: seq<Source>): nat {
    if sources == [] then 0
    else CostAll(access, sources[..|sources| - 1]) + Cost(access(sources[|sources| - 1]))
  }

  function GapsAll<T>(access: Source -> Access<T>, sources: seq<Source>): seq<Gap> {
    if sources == [] then []
    else GapsAll(access, sources[..|sources| - 1]) + GapsOf(access(sources[|sources| - 1]))
  }

  /** One source: its calls as the connector reports them, and its gaps. */
  method CallConnector<T>(access: Access<T>, at: int) returns (gaps: seq<Gap>, calls: nat)
    ensures gaps == GapsOf(access) && calls == Cost(access)
  {
    match access
    case Skipped(gap) => return [gap], 0;
    case Reported(gap) => return [gap], 1;
    case Reads(lookup, provider, jitter, found) =>
      calls := if lookup then 1 else 0;
      var retried, times := WithTransportRetry(provider, at, 0, jitter);
      calls := calls + retried.attempts;
      gaps := if retried.gap.Some? then [retried.gap.value] else found;
  }

  /** Every source the rules name, each with a retry budget of its own. */
  method GatherEvidence<T>(access: Source -> Access<T>, sources: seq<Source>, at: int) returns (gaps: seq<Gap>, calls: nat)
    ensures gaps == GapsAll(access, sources) && calls == CostAll(access, sources)
  {
    gaps, calls := [], 0;
    for i := 0 to |sources|
      invariant gaps == GapsAll(access, sources[..i]) && calls == CostAll(access, sources[..i])
    {
      assert sources[..i + 1][..i] == sources[..i];
      var more, cost := CallConnector(access(sources[i]), at);
      gaps, calls := gaps + more, calls + cost;
    }
    assert sources[..|sources|] == sources;
  }

  // ---- one tick ----

  /** What surrounds a run: what each source does in observation i, the results that come of it, the jitter, and how
      late the tick is that picks the run up. */
  datatype World<T> = World(access: nat -> Source -> Access<T>, results: nat -> seq<Assessment>, jitter: nat -> real,
                            late: nat -> nat)

  /** What a tick commits: a status, and when to look again. */
  datatype Tick = Tick(status: RunStatus, plan: Plan)

  /** The schedule is asked before the decision: a run that may not be looked at again has no observations left. Results
      without a required check resolve as unverified. */
  function Conclude(results: seq<Assessment>, gaps: seq<Gap>, count: nat, now: int, deadlineAt: int, jitter: real): Tick {
    var plan := PlanNextObservation(false, count, WorstGap(gaps), now, deadlineAt, None, jitter);
    var remaining := if plan.At? then Max(0, MAX_OBSERVATIONS - count) else 0;
    var decision := DecideRunStatus(results, DecisionContext(deadlineAt, now, WorkingAccess(gaps), remaining));
    Tick(if decision.None? then Unverified else decision.value.status, plan)
  }

  /** What an observation commits: the schedule's answer to the worst gap, and the table's with access as the gaps say
      and with the observations that remain, none where the schedule has no next check. */
  lemma {:induction false} ConcludesExactly(results: seq<Assessment>, gaps: seq<Gap>, count: nat, now: int, deadlineAt: int,
                                            jitter: real, ctx: DecisionContext)
    requires ctx.deadlineAt == deadlineAt && ctx.now == now
    requires ctx.workingAccess <==> !exists i | 0 <= i < |gaps| :: !gaps[i].code.NotFound?
    requires ctx.remaining ==
      if PlanNextObservation(false, count, WorstGap(gaps), now, deadlineAt, None, jitter).At? then 4 - count else 0
    ensures var tick := Conclude(results, gaps, count, now, deadlineAt, jitter);
      && tick.plan == PlanNextObservation(false, count, WorstGap(gaps), now, deadlineAt, None, jitter)
      && (SomeRequired(results) ==> DecideRunStatus(results, ctx).Some?
                                    && tick.status == DecideRunStatus(results, ctx).value.status)
      && (!SomeRequired(results) ==> tick.status == Unverified)
  {
    AccessWorksExactly(gaps);
    DecisionTable(results, ctx);
    ObservationPlanIsBounded(false, count, WorstGap(gaps), now, deadlineAt, None, jitter);
  }

  /** A run is left pending exactly when its deadline is ahead, its next check is planned and neither every required
      result supports it nor one contradicts it: none is left pending without a next check. */
  lemma {:induction false} PendingIsPlanned(results: seq<Assessment>, gaps: seq<Gap>, count: nat, now: int, deadlineAt: int, jitter: real)
    ensures var tick := Conclude(results, gaps, count, now, deadlineAt, jitter);
      tick.status == RunPending <==>
        && tick.plan.At? && now < deadlineAt && SomeRequired(results)
        && !RequiredContradicted(results) && !AllRequiredSupported(results)
  {
    ObservationPlanIsBounded(false, count, WorstGap(gaps), now, deadlineAt, None, jitter);
    var plan := PlanNextObservation(false, count, WorstGap(gaps), now, deadlineAt, None, jitter);
    var remaining := if plan.At? then Max(0, MAX_OBSERVATIONS - count) else 0;
    DecisionTable(results, DecisionContext(deadlineAt, now, WorkingAccess(gaps), remaining));
  }

  /** What observation i, made at an instant, commits. */
  type Ticker = (nat, int) -> Tick

  function TickOf<T>(world: World<T>, sources: seq<Source>, deadlineAt: int): Ticker {
    (i: nat, at: int) =>
      Conclude(world.results(i), GapsAll(world.access(i), sources), i + 1, at, deadlineAt, world.jitter(i))
  }

  // ---- the run ----

  /** Observation i is made because the one before left the run pending, at the instant it planned or later. */
  ghost predicate Follows(tick: Ticker, ticks: seq<int>, i: nat)
    requires 0 < i < |ticks|
  {
    var before := tick(i - 1, ticks[i - 1]);
    before.status == RunPending && before.plan.At? && ticks[i] >= before.plan.instant
  }

  /** The instants of a run's observations. */
  ghost predicate IsRun(tick: Ticker, ticks: seq<int>) {
    forall i | 0 < i < |ticks| :: Follows(tick, ticks, i)
  }

  /** The calls of the first n observations, over every source. */
  function Calls<T>(world: World<T>, sources: seq<Source>, n: nat): nat {
    if n == 0 then 0 else Calls(world, sources, n - 1) + CostAll(world.access(n - 1), sources)
  }

  /** From one observation to the next: a pending run is planned inside the budget, strictly later and within the grace. */
  ghost predicate Keeps(tick: Ticker, deadlineAt: int) {
    forall i: nat, at: int | tick(i, at).status == RunPending :: KeepsAt(tick, deadlineAt, i, at)
  }

  ghost predicate KeepsAt(tick: Ticker, deadlineAt: int, i: nat, at: int) {
    && tick(i, at).plan.At? && i + 1 < MAX_OBSERVATIONS
    && at + 24_000 <= tick(i, at).plan.instant <= deadlineAt + 60_000
  }

  lemma {:induction false} TickKeeps<T>(world: World<T>, sources: seq<Source>, deadlineAt: int)
    ensures Keeps(TickOf(world, sources, deadlineAt), deadlineAt)
  {
    forall i: nat, at: int | TickOf(world, sources, deadlineAt)(i, at).status == RunPending
      ensures KeepsAt(TickOf(world, sources, deadlineAt), deadlineAt, i, at)
    {
      var gaps := GapsAll(world.access(i), sources);
      PendingIsPlanned(world.results(i), gaps, i + 1, at, deadlineAt, world.jitter(i));
      ObservationPlanIsBounded(false, i + 1, WorstGap(gaps), at, deadlineAt, None, world.jitter(i));
    }
  }

  ghost predicate KeptStep(tick: Ticker, deadlineAt: int, ticks: seq<int>, i: nat)
    requires 0 < i < |ticks|
  {
    ticks[i] >= ticks[i - 1] + 24_000 && KeepsAt(tick, deadlineAt, i - 1, ticks[i - 1])
  }

  /** A run has at most four observations, each at least 24 seconds after the one before, none of them planned for later
      than a minute past the deadline; and after the fourth it is never left pending. */
  lemma {:induction false} RunIsBounded(tick: Ticker, deadlineAt: int, ticks: seq<int>)
    requires Keeps(tick, deadlineAt) && IsRun(tick, ticks)
    ensures |ticks| <= MAX_OBSERVATIONS
    ensures forall i | 0 < i < |ticks| :: KeptStep(tick, deadlineAt, ticks, i)
    ensures |ticks| == MAX_OBSERVATIONS ==> tick(|ticks| - 1, ticks[|ticks| - 1]).status != RunPending
  {
    forall i | 0 < i < |ticks|
      ensures KeptStep(tick, deadlineAt, ticks, i)
    {
      assert Follows(tick, ticks, i);
      assert KeepsAt(tick, deadlineAt, i - 1, ticks[i - 1]);
    }
    if |ticks| > 1 {
      assert KeptStep(tick, deadlineAt, ticks, |ticks| - 1);
    }
    if |ticks| > 0 && tick(|ticks| - 1, ticks[|ticks| - 1]).status == RunPending {
      assert KeepsAt(tick, deadlineAt, |ticks| - 1, ticks[|ticks| - 1]);
    }
  }

  lemma {:induction false} RunGrows(tick: Ticker, ticks: seq<int>, at: int)
    requires ticks != [] && IsRun(tick, ticks)
    requires var before := tick(|ticks| - 1, ticks[|ticks| - 1]);
      before.status == RunPending && before.plan.At? && at >= before.plan.instant
    ensures IsRun(tick, ticks + [at])
  {
    var longer := ticks + [at];
    forall i | 0 < i < |longer|
      ensures Follows(tick, longer, i)
    {
      assert i < |ticks| ==> Follows(tick, ticks, i);
    }
  }

  /** One observation: every source is read, then the schedule is asked, then the run is judged. */
  method Observe<T>(world: World<T>, sources: seq<Source>, i: nat, at: int, deadlineAt: int) returns (tick: Tick, calls: nat)
    ensures tick == TickOf(world, sources, deadlineAt)(i, at) && calls == CostAll(world.access(i), sources)
  {
    var gaps;
    gaps, calls := GatherEvidence(world.access(i), sources, at);
    tick := Conclude(world.results(i), gaps, i + 1, at, deadlineAt, world.jitter(i));
  }

  /** A run from its first observation to the end: whatever the sources, the results, the jitter and the ticks do, it is
      resolved after at most four observations. */
  method ObserveRun<T>(world: World<T>, sources: seq<Source>, start: int, deadlineAt: int)
    returns (ticks: seq<int>, status: RunStatus, calls: nat)
    ensures ticks != [] && ticks[0] == start && IsRun(TickOf(world, sources, deadlineAt), ticks)
    ensures |ticks| <= MAX_OBSERVATIONS && calls == Calls(world, sources, |ticks|)
    ensures status == TickOf(world, sources, deadlineAt)(|ticks| - 1, ticks[|ticks| - 1]).status != RunPending
  {
    ghost var step := TickOf(world, sources, deadlineAt);
    TickKeeps(world, sources, deadlineAt);
    var tick;
    tick, calls := Observe(world, sources, 0, start, deadlineAt);
    ticks := [start];
    while tick.status == RunPending
      invariant ticks != [] && ticks[0] == start && IsRun(step, ticks)
      invariant tick == step(|ticks| - 1, ticks[|ticks| - 1]) && calls == Calls(world, sources, |ticks|)
      invariant |ticks| <= MAX_OBSERVATIONS
      decreases MAX_OBSERVATIONS - |ticks|
    {
      assert KeepsAt(step, deadlineAt, |ticks| - 1, ticks[|ticks| - 1]);
      var at, cost := tick.plan.instant + world.late(|ticks|), 0;
      RunGrows(step, ticks, at);
      tick, cost := Observe(world, sources, |ticks|, at, deadlineAt);
      ticks, calls := ticks + [at], calls + cost;
    }
    status := tick.status;
  }

  // ---- the calls of a run ----

  predicate DistinctSources(sources: seq<Source>) {
    forall i, j | 0 <= i < j < |sources| :: sources[i] != sources[j]
  }

  /** Only the CRM connector looks up its account, and only in the observations that ask for it. */
  ghost predicate Asked<T(!new)>(world: World<T>, checks: nat -> bool) {
    forall i: nat, s: Source | world.access(i)(s).Reads? && world.access(i)(s).lookup :: s == CrmSource && checks(i)
  }

  /** How many of the first n observations look up the account. */
  function LookUps(sources: seq<Source>, checks: nat -> bool, n: nat): nat {
    if n == 0 then 0 else LookUps(sources, checks, n - 1) + if CrmSource in sources && checks(n - 1) then 1 else 0
  }

  /** The most that a run costs: four attempts for each source in each of four observations, and the look-ups. */
  function MostCalls(sources: seq<Source>, checks: nat -> bool): nat {
    4 * 4 * |sources| + LookUps(sources, checks, 4)
  }

  lemma {:induction false} CostAtMost<T>(access: Source -> Access<T>, sources: seq<Source>, check: bool)
    requires DistinctSources(sources)
    requires forall s: Source | access(s).Reads? && access(s).lookup :: s == CrmSource && check
    ensures CostAll(access, sources) <= 4 * |sources| + if CrmSource in sources && check then 1 else 0
  {
    if sources != [] {
      var init, last := sources[..|sources| - 1], sources[|sources| - 1];
      CostAtMost(access, init, check);
      assert sources == init + [last];
      assert last == CrmSource ==> CrmSource !in init;
    }
  }

  lemma {:induction false} CallsAtMost<T(!new)>(world: World<T>, sources: seq<Source>, checks: nat -> bool, n: nat, each: nat)
    requires DistinctSources(sources) && Asked(world, checks) && each == 4 * |sources|
    ensures Calls(world, sources, n) <= each * n + LookUps(sources, checks, n)
  {
    if n > 0 {
      CallsAtMost(world, sources, checks, n - 1, each);
      CostAtMost(world.access(n - 1), sources, checks(n - 1));
      Distribute(each, n);
    }
  }

  lemma {:induction false} Distribute(k: nat, n: nat)
    requires n > 0
    ensures k * n == k * (n - 1) + k
  {
  }

  lemma {:induction false} LookUpsGrow(sources: seq<Source>, checks: nat -> bool, m: nat, n: nat)
    requires m <= n
    ensures LookUps(sources, checks, m) <= LookUps(sources, checks, n)
    decreases n
  {
    if m < n {
      LookUpsGrow(sources, checks, m, n - 1);
    }
  }

  /** No run costs more; nor does any part of its sources, each of them sixteen reads and its look-ups. */
  lemma {:induction false} RunCostsAtMost<T(!new)>(world: World<T>, sources: seq<Source>, part: seq<Source>, checks: nat -> bool,
                                                   deadlineAt: int, ticks: seq<int>)
    requires DistinctSources(part) && Asked(world, checks) && IsRun(TickOf(world, sources, deadlineAt), ticks)
    ensures Calls(world, part, |ticks|) <= MostCalls(part, checks)
  {
    TickKeeps(world, sources, deadlineAt);
    RunIsBounded(TickOf(world, sources, deadlineAt), deadlineAt, ticks);
    CallsAtMost(world, part, checks, |ticks|, 4 * |part|);
    LookUpsGrow(part, checks, |ticks|, 4);
    AtMost(4 * |part|, |ticks|, 4);
  }

  /** Every run of these sources, with look-ups in these observations at most, stays within the declared ceiling, by the
      calls that the connectors report. */
  ghost predicate CeilingHolds(sources: seq<Source>, checks: nat -> bool) {
    forall world: World<int>, deadlineAt: int, ticks: seq<int>
      | Asked(world, checks) && IsRun(TickOf(world, sources, deadlineAt), ticks) ::
      Calls(world, sources, |ticks|) <= MAX_EXTERNAL_CALLS
  }

  /** The declared ceiling on the calls of a run covers every run exactly when the rules name one source at most, and no
      observation looks up the account of it. */
  lemma {:induction false} CeilingHoldsExactlyWhen(sources: seq<Source>, checks: nat -> bool)
    requires DistinctSources(sources)
    ensures CeilingHolds(sources, checks)
       <==> |sources| <= 1 && (CrmSource in sources ==> forall i | 0 <= i < MAX_OBSERVATIONS :: !checks(i))
  {
    LookUpsCount(sources, checks, 4);
    if MostCalls(sources, checks) <= MAX_EXTERNAL_CALLS {
      forall world: World<int>, deadlineAt: int, ticks: seq<int>
        | Asked(world, checks) && IsRun(TickOf(world, sources, deadlineAt), ticks)
        ensures Calls(world, sources, |ticks|) <= MAX_EXTERNAL_CALLS
      {
        RunCostsAtMost(world, sources, sources, checks, deadlineAt, ticks);
      }
    } else {
      var ticks := WorstRun(sources, checks);
      assert Asked(BusyWorld(checks), checks);
    }
  }

  lemma {:induction false} LookUpsCount(sources: seq<Source>, checks: nat -> bool, n: nat)
    ensures LookUps(sources, checks, n) <= n
    ensures LookUps(sources, checks, n) > 0 <==> CrmSource in sources && exists i | 0 <= i < n :: checks(i)
  {
    if n > 0 {
      LookUpsCount(sources, checks, n - 1);
    }
  }

  // ---- requests behind the calls ----

  /** The requests that the first n calls send, each of them one guarded fetch. */
  function Requests(sent: nat -> nat, n: nat): nat {
    if n == 0 then 0 else Requests(sent, n - 1) + sent(n - 1)
  }

  /** With every redirect followed, at most four requests for each call; and that many when each call uses all its hops. */
  lemma {:induction false} RequestsAtMost(sent: nat -> nat, n: nat)
    requires forall k: nat :: sent(k) <= 4
    ensures Requests(sent, n) <= 4 * n
    ensures (forall k: nat | k < n :: sent(k) == 4) ==> Requests(sent, n) == 4 * n
  {
    if n > 0 {
      RequestsAtMost(sent, n - 1);
    }
  }

  /** The requests of a run: at most sixty-four for each source, and four for each look-up. */
  lemma {:induction false} RunSendsAtMost<T(!new)>(world: World<T>, sources: seq<Source>, part: seq<Source>, checks: nat -> bool,
                                                   deadlineAt: int, ticks: seq<int>, sent: nat -> nat)
    requires DistinctSources(part) && Asked(world, checks) && IsRun(TickOf(world, sources, deadlineAt), ticks)
    requires forall k: nat :: sent(k) <= 4
    ensures Requests(sent, Calls(world, part, |ticks|)) <= 64 * |part| + 4 * LookUps(part, checks, 4)
  {
    RunCostsAtMost(world, sources, part, checks, deadlineAt, ticks);
    RequestsAtMost(sent, Calls(world, part, |ticks|));
  }

  // ---- ticks whose outcome is not recorded ----

  /** What tick i commits when so many observations were recorded before it. */
  type Recorder = (nat, nat, int) -> Tick

  function RecordOf<T>(world: World<T>, sources: seq<Source>, deadlineAt: int): Recorder {
    (i: nat, count: nat, at: int) =>
      Conclude(world.results(i), GapsAll(world.access(i), sources), count + 1, at, deadlineAt, world.jitter(i))
  }

  /** The run in which no tick is lost is the run as the driver makes it. */
  lemma {:induction false} NothingLost<T>(world: World<T>, sources: seq<Source>, deadlineAt: int, ticks: seq<int>, lost: seq<bool>)
    requires |lost| == |ticks| && forall i | 0 <= i < |lost| :: !lost[i]
    ensures IsLossyRun(RecordOf(world, sources, deadlineAt), ticks, lost) <==> IsRun(TickOf(world, sources, deadlineAt), ticks)
  {
    forall i | 0 < i < |ticks|
      ensures GoesOn(RecordOf(world, sources, deadlineAt), ticks, lost, i) <==> Follows(TickOf(world, sources, deadlineAt), ticks, i)
    {
      AllRecorded(lost, i - 1);
    }
  }

  lemma {:induction false} AllRecorded(lost: seq<bool>, n: nat)
    requires n <= |lost| && forall i | 0 <= i < n :: !lost[i]
    ensures Recorded(lost, n) == n
  {
    if n > 0 { AllRecorded(lost, n - 1); }
  }

  /** The observations recorded by the first n ticks, and those lost. */
  function Recorded(lost: seq<bool>, n: nat): nat
    requires n <= |lost|
  {
    if n == 0 then 0 else Recorded(lost, n - 1) + if lost[n - 1] then 0 else 1
  }

  function Lost(lost: seq<bool>, n: nat): nat
    requires n <= |lost|
  {
    if n == 0 then 0 else Lost(lost, n - 1) + if lost[n - 1] then 1 else 0
  }

  /** A tick that was recorded left the run pending and due by now; one that was lost left everything as it was. */
  ghost predicate GoesOn(record: Recorder, ticks: seq<int>, lost: seq<bool>, i: nat)
    requires 0 < i < |ticks| == |lost|
  {
    !lost[i - 1] ==>
      var before := record(i - 1, Recorded(lost, i - 1), ticks[i - 1]);
      before.status == RunPending && before.plan.At? && ticks[i] >= before.plan.instant
  }

  ghost predicate IsLossyRun(record: Recorder, ticks: seq<int>, lost: seq<bool>) {
    |ticks| == |lost| && forall i | 0 < i < |ticks| :: GoesOn(record, ticks, lost, i)
  }

  /** A recorded tick that leaves the run pending is inside the budget. */
  ghost predicate Counts(record: Recorder) {
    forall i: nat, count: nat, at: int | record(i, count, at).status == RunPending :: count + 1 < MAX_OBSERVATIONS
  }

  lemma {:induction false} RecordCounts<T>(world: World<T>, sources: seq<Source>, deadlineAt: int)
    ensures Counts(RecordOf(world, sources, deadlineAt))
  {
    forall i: nat, count: nat, at: int | RecordOf(world, sources, deadlineAt)(i, count, at).status == RunPending
      ensures count + 1 < MAX_OBSERVATIONS
    {
      var gaps := GapsAll(world.access(i), sources);
      PendingIsPlanned(world.results(i), gaps, count + 1, at, deadlineAt, world.jitter(i));
      ObservationPlanIsBounded(false, count + 1, WorstGap(gaps), at, deadlineAt, None, world.jitter(i));
    }
  }

  lemma {:induction false} FewRecorded(record: Recorder, ticks: seq<int>, lost: seq<bool>, i: nat)
    requires Counts(record) && IsLossyRun(record, ticks, lost) && i < |ticks|
    ensures Recorded(lost, i) < MAX_OBSERVATIONS
  {
    if i > 0 {
      FewRecorded(record, ticks, lost, i - 1);
      assert GoesOn(record, ticks, lost, i);
      if !lost[i - 1] {
        StaysInBudget(record, i - 1, Recorded(lost, i - 1), ticks[i - 1]);
      }
    }
  }

  lemma {:induction false} StaysInBudget(record: Recorder, i: nat, count: nat, at: int)
    requires Counts(record) && record(i, count, at).status == RunPending
    ensures count + 1 < MAX_OBSERVATIONS
  {
  }

  lemma {:induction false} RecordedOrLost(lost: seq<bool>, n: nat)
    requires n <= |lost|
    ensures Recorded(lost, n) + Lost(lost, n) == n
  {
    if n > 0 {
      RecordedOrLost(lost, n - 1);
    }
  }

  /** Each lost tick adds one observation to the four, whatever else happens. */
  lemma {:induction false} LossyRunIsBounded(record: Recorder, ticks: seq<int>, lost: seq<bool>)
    requires Counts(record) && IsLossyRun(record, ticks, lost)
    ensures |ticks| <= MAX_OBSERVATIONS + Lost(lost, |lost|)
  {
    if ticks != [] {
      FewRecorded(record, ticks, lost, |ticks| - 1);
      RecordedOrLost(lost, |lost|);
    }
  }

  /** With n lost ticks the calls are at most four for each source in each of 4 + n observations, and the look-ups. */
  lemma {:induction false} LossyRunCostsAtMost<T(!new)>(world: World<T>, sources: seq<Source>, part: seq<Source>, checks: nat -> bool,
                                                        deadlineAt: int, ticks: seq<int>, lost: seq<bool>, most: nat)
    requires DistinctSources(part) && Asked(world, checks) && IsLossyRun(RecordOf(world, sources, deadlineAt), ticks, lost)
    requires most == MAX_OBSERVATIONS + Lost(lost, |lost|)
    ensures |ticks| <= most && Calls(world, part, |ticks|) <= 4 * |part| * most + LookUps(part, checks, most)
  {
    RecordCounts(world, sources, deadlineAt);
    LossyRunIsBounded(RecordOf(world, sources, deadlineAt), ticks, lost);
    CallsAtMost(world, part, checks, |ticks|, 4 * |part|);
    LookUpsGrow(part, checks, |ticks|, most);
    AtMost(4 * |part|, |ticks|, most);
  }

  lemma {:induction false} AtMost(k: nat, m: nat, n: nat)
    requires m <= n
    ensures k * m <= k * n
  {
  }

  // ---- the most expensive run ----

  function BusyFrom(s: Source): nat -> Outcome<int> {
    (k: nat) => Outcome(0, Some(Gap(s, RateLimited, true)), None)
  }

  const UNKNOWN_YET := [Assessment("", "", true, Unknown, AwaitingEvidence, None, None, None)]

  function NoJitter(k: nat): real {
    0.0
  }

  function BusyAccess(check: bool): Source -> Access<int> {
    (s: Source) => Reads(s == CrmSource && check, BusyFrom(s), NoJitter, [])
  }

  /** Every source stays busy, and the CRM account is looked up whenever that is asked for. */
  function BusyWorld(checks: nat -> bool): World<int> {
    World((i: nat) => BusyAccess(checks(i)), (i: nat) => UNKNOWN_YET, (i: nat) => 0.0, (i: nat) => 0)
  }

  lemma {:induction false} BusyCostsFour(s: Source)
    ensures Attempts(BusyFrom(s), 0, 0) == 4
  {
    assert Attempts(BusyFrom(s), 0, 3) == 1;
    assert Attempts(BusyFrom(s), 0, 2) == 2;
    assert Attempts(BusyFrom(s), 0, 1) == 3;
  }

  lemma {:induction false} BusyObservation(sources: seq<Source>, check: bool)
    requires DistinctSources(sources)
    ensures CostAll(BusyAccess(check), sources) == 4 * |sources| + if CrmSource in sources && check then 1 else 0
    ensures forall g | g in GapsAll(BusyAccess(check), sources) :: g.code == RateLimited && g.retryable
  {
    if sources != [] {
      var init, last := sources[..|sources| - 1], sources[|sources| - 1];
      BusyObservation(init, check);
      BusyCostsFour(last);
      assert sources == init + [last];
      assert last == CrmSource ==> CrmSource !in init;
    }
  }

  const FAR := 10_000_000

  lemma {:induction false} BusyStaysPending(sources: seq<Source>, checks: nat -> bool, i: nat, at: int)
    requires DistinctSources(sources) && i + 1 < MAX_OBSERVATIONS && at <= FAR - 288_000
    ensures var tick := TickOf(BusyWorld(checks), sources, FAR)(i, at);
      tick.status == RunPending && tick.plan.At? && tick.plan.instant <= at + 288_000
  {
    var gaps := GapsAll(BusyAccess(checks(i)), sources);
    BusyObservation(sources, checks(i));
    BusyTick(sources, checks, i, at, gaps);
    BusyGapsPlan(gaps, i + 1, at);
  }

  lemma {:induction false} BusyTick(sources: seq<Source>, checks: nat -> bool, i: nat, at: int, gaps: seq<Gap>)
    requires gaps == GapsAll(BusyAccess(checks(i)), sources)
    ensures TickOf(BusyWorld(checks), sources, FAR)(i, at) == Conclude(UNKNOWN_YET, gaps, i + 1, at, FAR, 0.0)
  {
  }

  lemma {:induction false} BusyGapsPlan(gaps: seq<Gap>, count: nat, at: int)
    requires forall g | g in gaps :: g.code == RateLimited && g.retryable
    requires count < MAX_OBSERVATIONS && at <= FAR - 288_000
    ensures var tick := Conclude(UNKNOWN_YET, gaps, count, at, FAR, 0.0);
      tick.status == RunPending && tick.plan.At? && tick.plan.instant <= at + 288_000
  {
    TerminalGapStops(gaps);
    ObservationIsPlanned(false, count, WorstGap(gaps), at, FAR, None, 0.0);
    ObservationPlanIsBounded(false, count, WorstGap(gaps), at, FAR, None, 0.0);
    PendingIsPlanned(UNKNOWN_YET, gaps, count, at, FAR, 0.0);
    assert UNKNOWN_YET[0] in UNKNOWN_YET;
  }

  lemma {:induction false} BusyTicks(sources: seq<Source>, checks: nat -> bool, n: nat) returns (ticks: seq<int>)
    requires DistinctSources(sources) && 0 < n <= MAX_OBSERVATIONS
    ensures IsRun(TickOf(BusyWorld(checks), sources, FAR), ticks) && |ticks| == n
    ensures ticks[n - 1] <= 288_000 * (n - 1)
  {
    var step := TickOf(BusyWorld(checks), sources, FAR);
    if n == 1 {
      ticks := [0];
    } else {
      ticks := BusyTicks(sources, checks, n - 1);
      BusyStaysPending(sources, checks, n - 2, ticks[n - 2]);
      var at := step(n - 2, ticks[n - 2]).plan.instant;
      RunGrows(step, ticks, at);
      ticks := ticks + [at];
    }
  }

  lemma {:induction false} BusyCalls(sources: seq<Source>, checks: nat -> bool, n: nat, each: nat)
    requires DistinctSources(sources) && each == 4 * |sources|
    ensures Calls(BusyWorld(checks), sources, n) == each * n + LookUps(sources, checks, n)
  {
    if n > 0 {
      BusyCalls(sources, checks, n - 1, each);
      BusyObservation(sources, checks(n - 1));
      assert BusyWorld(checks).access(n - 1) == BusyAccess(checks(n - 1));
      Distribute(each, n);
    }
  }

  /** And some run costs that much. */
  lemma {:induction false} WorstRun(sources: seq<Source>, checks: nat -> bool) returns (ticks: seq<int>)
    requires DistinctSources(sources)
    ensures Asked(BusyWorld(checks), checks)
    ensures IsRun(TickOf(BusyWorld(checks), sources, FAR), ticks)
    ensures Calls(BusyWorld(checks), sources, |ticks|) == MostCalls(sources, checks)
  {
    ticks := BusyTicks(sources, checks, MAX_OBSERVATIONS);
    BusyCalls(sources, checks, MAX_OBSERVATIONS, 4 * |sources|);
    BusyLooksUpAsAsked(checks);
  }

  /** And when each of its calls uses every redirect, that many requests. */
  lemma {:induction false} WorstRunSends(sources: seq<Source>, checks: nat -> bool, sent: nat -> nat) returns (ticks: seq<int>)
    requires DistinctSources(sources) && forall k: nat :: sent(k) == 4
    ensures IsRun(TickOf(BusyWorld(checks), sources, FAR), ticks)
    ensures Requests(sent, Calls(BusyWorld(checks), sources, |ticks|)) == 64 * |sources| + 4 * LookUps(sources, checks, 4)
  {
    ticks := WorstRun(sources, checks);
    RequestsAtMost(sent, Calls(BusyWorld(checks), sources, |ticks|));
  }

  lemma {:induction false} BusyLooksUpAsAsked(checks: nat -> bool)
    ensures Asked(BusyWorld(checks), checks)
  {
    var world := BusyWorld(checks);
    forall i: nat, s: Source | world.access(i)(s).Reads? && world.access(i)(s).lookup
      ensures s == CrmSource && checks(i)
    {
      BusyAccessOf(checks, i);
      BusyLooksUp(checks(i), s);
    }
  }

  lemma {:induction false} BusyAccessOf(checks: nat -> bool, i: nat)
    ensures BusyWorld(checks).access(i) == BusyAccess(checks(i))
  {
  }

  lemma {:induction false} BusyLooksUp(check: bool, s: Source)
    ensures BusyAccess(check)(s).Reads? && (BusyAccess(check)(s).lookup <==> s == CrmSource && check)
  {
  }
}
