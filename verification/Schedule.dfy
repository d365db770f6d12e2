/** When to look again: two nested budgets, a backoff with jitter, a deadline with grace.
    Instants are milliseconds, delays are seconds. */
module Schedule {
  import opened Text
  import opened Evidence

  const BASE_BACKOFF_SECONDS := 30
  const MAX_BACKOFF_SECONDS := 600
  const DEADLINE_GRACE_SECONDS := 60
  const JITTER_SPREAD := 0.4
  const MAX_OBSERVATIONS := 4
  const MAX_RETRIES := 3
  const MAX_EXTERNAL_CALLS := MAX_OBSERVATIONS * (1 + MAX_RETRIES)

  datatype Stop = Decided | BudgetExhausted | TerminalGap | PastDeadline | WouldExceedDeadline

  datatype Plan = At(instant: int, asked: bool) | Never(why: Stop)

  /** Math.round */
  function Round(x: real): int {
    (x + 0.5).Floor
  }

  /** Math.ceil */
  function Ceil(x: real): int {
    -((-x).Floor)
  }

  function Pow2(n: nat): nat {
    if n == 0 then 1 else 2 * Pow2(n - 1)
  }

  function Min(a: int, b: int): int {
    if a < b then a else b
  }

  function Max(a: int, b: int): int {
    if a > b then a else b
  }

  /** Into [0, 1): anything out of range is moved to the nearer end. */
  function ClampFraction(value: real): (r: real)
    ensures 0.0 <= r < 1.0
  {
    if value < 0.0 then 0.0 else if value >= 1.0 then 0.999 else value
  }

  function BackoffBase(observationCount: int): int {
    Min(BASE_BACKOFF_SECONDS * Pow2(Max(0, Min(observationCount, 16))), MAX_BACKOFF_SECONDS)
  }

  function Jittered(base: int, jitter: real): int {
    Max(1, Round(base as real * (1.0 - JITTER_SPREAD / 2.0 + JITTER_SPREAD * ClampFraction(jitter))))
  }

  function BackoffSeconds(observationCount: int, jitter: real): int {
    Jittered(BackoffBase(observationCount), jitter)
  }

  predicate IsTerminalGap(gap: Option<Gap>) {
    && gap.Some?
    && (|| gap.value.code in {AuthExpired, PermissionMissing, UnsupportedCapability}
        || (!gap.value.retryable && gap.value.code != NotFound))
  }

  /** Retry-After in whole seconds, when the provider sent a finite one. */
  function RetryAfter(seconds: Option<real>): Option<int> {
    if seconds.None? then None else Some(Max(0, Ceil(seconds.value)))
  }

  function Delay(retryAfter: Option<int>, backoff: int): int {
    if retryAfter.None? then backoff else Max(retryAfter.value, backoff)
  }

  /** `jitter` is the seed when one is given, else the one derived from the counters. */
  function PlanNextObservation(decided: bool, observationCount: int, lastGap: Option<Gap>, now: int, deadlineAt: int,
                               retryAfterSeconds: Option<real>, jitter: real): Plan {
    var latest := deadlineAt + DEADLINE_GRACE_SECONDS * 1000;
    if decided then Never(Decided)
    else if observationCount >= MAX_OBSERVATIONS then Never(BudgetExhausted)
    else if IsTerminalGap(lastGap) then Never(TerminalGap)
    else if now >= latest then Never(PastDeadline)
    else
      var backoff := BackoffSeconds(observationCount, ClampFraction(jitter));
      var retryAfter := RetryAfter(retryAfterSeconds);
      var candidate := now + Delay(retryAfter, backoff) * 1000;
      if candidate > latest then Never(WouldExceedDeadline)
      else At(candidate, retryAfter.Some? && retryAfter.value >= backoff)
  }

  function PlanNextRetry(attemptsUsed: nat, now: int, lastGap: Option<Gap>, retryAfterSeconds: Option<real>, jitter: real): Plan {
    if attemptsUsed >= MAX_RETRIES then Never(BudgetExhausted)
    else if IsTerminalGap(lastGap) then Never(TerminalGap)
    else
      var base := Min(Pow2(attemptsUsed), 30);
      At(now + Delay(RetryAfter(retryAfterSeconds), Jittered(base, jitter)) * 1000, false)
  }

  // ---- bounds ----

  /** Jitter stays within a fifth of the base on either side, to the nearest second. */
  lemma {:induction false} JitterBounds(base: int, jitter: real)
    requires base >= 1
    ensures 8 * base - 5 <= 10 * Jittered(base, jitter) <= 12 * base + 5
    ensures Jittered(base, jitter) >= 1
  {
    var f := ClampFraction(jitter);
    var scaled := base as real * (1.0 - JITTER_SPREAD / 2.0 + JITTER_SPREAD * f);
    assert 0.8 <= 1.0 - JITTER_SPREAD / 2.0 + JITTER_SPREAD * f <= 1.2;
    ScaleBounds(base as real, 1.0 - JITTER_SPREAD / 2.0 + JITTER_SPREAD * f, scaled);
  }

  lemma {:induction false} ScaleBounds(b: real, f: real, p: real)
    requires b >= 0.0 && 0.8 <= f <= 1.2 && p == b * f
    ensures 0.8 * b <= p <= 1.2 * b
  {
  }

  lemma {:induction false} Pow2Grows(m: nat, n: nat)
    requires m <= n
    ensures 1 <= Pow2(m) <= Pow2(n)
    decreases n
  {
    if m < n {
      Pow2Grows(m, n - 1);
    } else if n > 0 {
      Pow2Grows(m - 1, n - 1);
    }
  }

  lemma {:induction false} BackoffBaseBounds(observationCount: int)
    ensures BASE_BACKOFF_SECONDS <= BackoffBase(observationCount) <= MAX_BACKOFF_SECONDS
    ensures observationCount < MAX_OBSERVATIONS ==> BackoffBase(observationCount) <= 240
    ensures observationCount >= 5 <==> BackoffBase(observationCount) == MAX_BACKOFF_SECONDS
    ensures observationCount < 5 ==> BackoffBase(observationCount) <= 480
  {
    var n := Max(0, Min(observationCount, 16));
    assert Pow2(0) == 1 && Pow2(3) == 8 && Pow2(4) == 16 && Pow2(5) == 32;
    if n < 4 {
      Pow2Grows(n, 3);
      Pow2Grows(0, n);
    } else if n >= 5 {
      Pow2Grows(5, n);
    }
  }

  /** The base is doubled and capped, but jitter is applied after the cap: a wait exceeds the declared bound
      exactly from the sixth observation on with a fraction of at least 241/480. */
  lemma {:induction false} BackoffExceedsItsBound(observationCount: int, jitter: real)
    ensures BackoffSeconds(observationCount, jitter) > MAX_BACKOFF_SECONDS
            <==> observationCount >= 5 && 480.0 * ClampFraction(jitter) >= 241.0
  {
    BackoffBaseBounds(observationCount);
    JitterBounds(BackoffBase(observationCount), jitter);
  }

  /** Inside the observation budget a backoff is between 24 and 288 seconds. */
  lemma {:induction false} PlannedBackoffBounds(observationCount: int, jitter: real)
    requires observationCount < MAX_OBSERVATIONS
    ensures 24 <= BackoffSeconds(observationCount, jitter) <= 288
  {
    BackoffBaseBounds(observationCount);
    JitterBounds(BackoffBase(observationCount), jitter);
  }

  /** Whatever the provider answered and whatever the jitter: a planned observation is strictly later than now,
      no earlier than the provider asked, within the deadline's grace, inside the budget and for a live run. */
  lemma {:induction false} ObservationPlanIsBounded(decided: bool, observationCount: int, lastGap: Option<Gap>, now: int, deadlineAt: int,
                                 retryAfterSeconds: Option<real>, jitter: real)
    ensures var plan := PlanNextObservation(decided, observationCount, lastGap, now, deadlineAt, retryAfterSeconds, jitter);
      plan.At? ==>
        && now + 24_000 <= plan.instant <= deadlineAt + 60_000
        && (retryAfterSeconds.Some? ==> plan.instant as real >= now as real + 1000.0 * retryAfterSeconds.value)
        && observationCount < MAX_OBSERVATIONS && !decided && !IsTerminalGap(lastGap)
        && (retryAfterSeconds.None? ==> plan.instant <= now + 288_000)
  {
    PlannedBackoffBoundsIfAny(observationCount, ClampFraction(jitter));
    if retryAfterSeconds.Some? {
      CeilCovers(retryAfterSeconds.value);
    }
  }

  /** And nothing else keeps the run from being looked at again: a live run inside its budget, without a terminal gap,
      is planned whenever the longest backoff and the delay asked for both fit before the deadline and its grace. */
  lemma {:induction false} ObservationIsPlanned(decided: bool, observationCount: int, lastGap: Option<Gap>, now: int,
                                                deadlineAt: int, retryAfterSeconds: Option<real>, jitter: real)
    requires !decided && observationCount < MAX_OBSERVATIONS && !IsTerminalGap(lastGap)
    requires now + 288_000 <= deadlineAt + 60_000
    requires retryAfterSeconds.Some? ==> now as real + 1000.0 * (retryAfterSeconds.value + 1.0) <= deadlineAt as real + 60_000.0
    ensures PlanNextObservation(decided, observationCount, lastGap, now, deadlineAt, retryAfterSeconds, jitter).At?
  {
    PlannedBackoffBounds(observationCount, ClampFraction(jitter));
    if retryAfterSeconds.Some? {
      CeilCovers(retryAfterSeconds.value);
    }
  }

  lemma {:induction false} PlannedBackoffBoundsIfAny(observationCount: int, jitter: real)
    ensures observationCount < MAX_OBSERVATIONS ==> 24 <= BackoffSeconds(observationCount, jitter) <= 288
  {
    if observationCount < MAX_OBSERVATIONS {
      PlannedBackoffBounds(observationCount, jitter);
    }
  }

  lemma {:induction false} CeilCovers(x: real)
    ensures x <= Ceil(x) as real < x + 1.0
  {
  }

  /** A planned retry is at least a second away, no earlier than asked, and inside the inner budget; it is refused
      only when the budget is spent or the gap cannot be retried away. */
  lemma {:induction false} RetryPlanIsBounded(attemptsUsed: nat, now: int, lastGap: Option<Gap>, retryAfterSeconds: Option<real>, jitter: real)
    ensures var plan := PlanNextRetry(attemptsUsed, now, lastGap, retryAfterSeconds, jitter);
      && (plan.At? <==> attemptsUsed < MAX_RETRIES && !IsTerminalGap(lastGap))
      && (plan.At? ==>
            && plan.instant >= now + 1000
            && (retryAfterSeconds.Some? ==> plan.instant as real >= now as real + 1000.0 * retryAfterSeconds.value)
            && (retryAfterSeconds.None? ==> plan.instant <= now + 5_000))
  {
    if attemptsUsed < MAX_RETRIES {
      assert Pow2(0) == 1 && Pow2(1) == 2 && Pow2(2) == 4;
      Pow2Grows(0, attemptsUsed);
      Pow2Grows(attemptsUsed, 2);
      JitterBounds(Min(Pow2(attemptsUsed), 30), jitter);
    }
    if retryAfterSeconds.Some? {
      CeilCovers(retryAfterSeconds.value);
    }
  }

  // ---- the plans, exactly ----

  /** Trying again cannot help: the connection is broken, or the connector said so of anything but "not found". */
  ghost predicate Hopeless(gap: Option<Gap>) {
    && gap.Some?
    && match gap.value.code
       case AuthExpired => true
       case PermissionMissing => true
       case UnsupportedCapability => true
       case NotFound => false
       case _ => !gap.value.retryable
  }

  /** The first wait is half a minute; each observation made doubles it, up to ten minutes. */
  ghost predicate FirstWait(observationCount: int, base: int) {
    base == if observationCount <= 0 then 30 else if observationCount == 1 then 60 else if observationCount == 2 then 120
            else if observationCount == 3 then 240 else if observationCount == 4 then 480 else 600
  }

  ghost predicate Fraction(jitter: real, f: real) {
    f == if jitter < 0.0 then 0.0 else if jitter >= 1.0 then 0.999 else jitter
  }

  /** The base scaled by the jitter to between four and six fifths, to the nearest second. */
  ghost predicate Spread(base: int, jitter: real, seconds: int) {
    exists f | Fraction(jitter, f) :: seconds as real - 0.5 <= base as real * (0.8 + 0.4 * f) < seconds as real + 0.5
  }

  /** The delay asked for, in whole seconds rounded up and never negative. */
  ghost predicate AskedFor(retryAfter: real, seconds: int) {
    if retryAfter <= 0.0 then seconds == 0 else (seconds - 1) as real < retryAfter <= seconds as real
  }

  lemma {:induction false} FirstWaitIsBase(observationCount: int)
    ensures FirstWait(observationCount, BackoffBase(observationCount))
  {
    BackoffBaseBounds(observationCount);
    assert Pow2(0) == 1 && Pow2(1) == 2 && Pow2(2) == 4 && Pow2(3) == 8 && Pow2(4) == 16;
  }

  lemma {:induction false} SpreadIsJittered(base: int, jitter: real, seconds: int)
    requires base >= 1
    ensures Spread(base, jitter, seconds) <==> seconds == Jittered(base, jitter)
  {
    JitterBounds(base, jitter);
    var f := ClampFraction(jitter);
    assert Fraction(jitter, f);
    SpreadFactor(base as real, f, base as real * (1.0 - JITTER_SPREAD / 2.0 + JITTER_SPREAD * f));
    NearestSecond(base as real * (0.8 + 0.4 * f), seconds);
  }

  lemma {:induction false} SpreadFactor(b: real, f: real, p: real)
    requires p == b * (1.0 - JITTER_SPREAD / 2.0 + JITTER_SPREAD * f)
    ensures p == b * (0.8 + 0.4 * f)
  {
    assert 1.0 - JITTER_SPREAD / 2.0 + JITTER_SPREAD * f == 0.8 + 0.4 * f;
  }

  lemma {:induction false} NearestSecond(x: real, seconds: int)
    ensures seconds as real - 0.5 <= x < seconds as real + 0.5 <==> seconds == Round(x)
  {
  }

  lemma {:induction false} AskedForIsCeiling(retryAfter: real, seconds: int)
    ensures AskedFor(retryAfter, seconds) <==> RetryAfter(Some(retryAfter)) == Some(seconds)
  {
    CeilCovers(retryAfter);
  }

  lemma {:induction false} HopelessIsTerminal(gap: Option<Gap>)
    ensures Hopeless(gap) <==> IsTerminalGap(gap)
  {
  }

  /** The next observation of a run: why there is none, in this order, or else when it is, from the wait and the delay
      the provider asked for, whichever is longer. */
  lemma {:induction false} ObservationPlanExactly(decided: bool, observationCount: int, lastGap: Option<Gap>, now: int,
                                                  deadlineAt: int, retryAfter: Option<real>, jitter: real,
                                                  base: int, wait: int, asked: int)
    requires FirstWait(observationCount, base) && Spread(base, jitter, wait)
    requires retryAfter.Some? ==> AskedFor(retryAfter.value, asked)
    ensures PlanNextObservation(decided, observationCount, lastGap, now, deadlineAt, retryAfter, jitter) ==
      if decided then Never(Decided)
      else if observationCount >= 4 then Never(BudgetExhausted)
      else if Hopeless(lastGap) then Never(TerminalGap)
      else if now >= deadlineAt + 60_000 then Never(PastDeadline)
      else
        var seconds := if retryAfter.Some? && asked > wait then asked else wait;
        if now + 1000 * seconds > deadlineAt + 60_000 then Never(WouldExceedDeadline)
        else At(now + 1000 * seconds, retryAfter.Some? && asked >= wait)
  {
    HopelessIsTerminal(lastGap);
    FirstWaitIsBase(observationCount);
    ClampTwice(jitter);
    SpreadIsJittered(base, jitter, wait);
    if retryAfter.Some? { AskedForIsCeiling(retryAfter.value, asked); }
  }

  lemma {:induction false} ClampTwice(jitter: real)
    ensures ClampFraction(ClampFraction(jitter)) == ClampFraction(jitter)
  {
  }

  /** The next retry inside an observation: after one, two and four seconds, spread likewise, and not before the provider
      asked. */
  lemma {:induction false} RetryPlanExactly(attemptsUsed: nat, now: int, lastGap: Option<Gap>, retryAfter: Option<real>,
                                            jitter: real, base: int, wait: int, asked: int)
    requires base == (if attemptsUsed == 0 then 1 else if attemptsUsed == 1 then 2 else 4) && Spread(base, jitter, wait)
    requires retryAfter.Some? ==> AskedFor(retryAfter.value, asked)
    ensures PlanNextRetry(attemptsUsed, now, lastGap, retryAfter, jitter) ==
      if attemptsUsed >= 3 then Never(BudgetExhausted)
      else if Hopeless(lastGap) then Never(TerminalGap)
      else At(now + 1000 * (if retryAfter.Some? && asked > wait then asked else wait), false)
  {
    HopelessIsTerminal(lastGap);
    assert Pow2(0) == 1 && Pow2(1) == 2 && Pow2(2) == 4;
    SpreadIsJittered(base, jitter, wait);
    if retryAfter.Some? { AskedForIsCeiling(retryAfter.value, asked); }
  }
}
