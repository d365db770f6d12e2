/** Transport retries inside one observation. */
module Retry {
  import opened Text
  import opened Evidence
  import opened Schedule

  /** How one attempt ended: without a gap it succeeded. */
  datatype Outcome<T> = Outcome(value: T, gap: Option<Gap>, retryAfterSeconds: Option<real>)

  datatype Stopped = Succeeded | Gave(why: Stop)

  datatype Retried<T> = Retried(value: T, gap: Option<Gap>, attempts: nat, stopped: Stopped)

  /** The attempt with this index is the last: it succeeded, or no retry may follow it. */
  predicate IsLast<T>(outcome: Outcome<T>, attemptsUsed: nat, index: nat) {
    outcome.gap.None? || attemptsUsed + index >= MAX_RETRIES || IsTerminalGap(outcome.gap)
  }

  /** How many attempts are made from this index on: up to the first last one. */
  function Attempts<T>(provider: nat -> Outcome<T>, attemptsUsed: nat, index: nat): (n: nat)
    ensures n >= 1
    ensures index + n <= Max(index + 1, 1 + MAX_RETRIES - attemptsUsed)
    decreases MAX_RETRIES - attemptsUsed - index
  {
    if IsLast(provider(index), attemptsUsed, index) then 1 else 1 + Attempts(provider, attemptsUsed, index + 1)
  }

  /** `provider` may answer each attempt as it likes and `jitter` may be anything; `times` are the instants at
      which the attempts were made. */
  method WithTransportRetry<T>(provider: nat -> Outcome<T>, start: int, attemptsUsed: nat, jitter: nat -> real)
    returns (r: Retried<T>, times: seq<int>)
    ensures r.attempts == |times| == Attempts(provider, attemptsUsed, 0)
    ensures attemptsUsed <= MAX_RETRIES ==> r.attempts <= 1 + MAX_RETRIES - attemptsUsed
    ensures attemptsUsed > MAX_RETRIES ==> r.attempts == 1
    ensures IsLast(provider(r.attempts - 1), attemptsUsed, r.attempts - 1)
    ensures forall k | 0 <= k < r.attempts - 1 :: !IsLast(provider(k), attemptsUsed, k)
    ensures r.value == provider(r.attempts - 1).value && r.gap == provider(r.attempts - 1).gap
    ensures r.stopped == Succeeded <==> r.gap.None?
    ensures times[0] == start
    ensures forall k | 0 < k < |times| :: Spaced(provider(k - 1), times[k - 1], times[k])
  {
    var used := attemptsUsed;
    var attempts := 0;
    var now := start;
    times := [];
    while true
      invariant used == attemptsUsed + attempts && |times| == attempts
      invariant attempts + Attempts(provider, attemptsUsed, attempts) == Attempts(provider, attemptsUsed, 0)
      invariant attempts > 0 ==> used <= MAX_RETRIES && times[0] == start
      invariant attempts == 0 ==> now == start
      invariant attempts > 0 ==> Spaced(provider(attempts - 1), times[attempts - 1], now)
      invariant forall k | 0 <= k < attempts :: !IsLast(provider(k), attemptsUsed, k)
      invariant forall k | 0 < k < |times| :: Spaced(provider(k - 1), times[k - 1], times[k])
      decreases MAX_RETRIES - used
    {
      var outcome := provider(attempts);
      times := times + [now];
      attempts := attempts + 1;
      if outcome.gap.None? {
        return Retried(outcome.value, None, attempts, Succeeded), times;
      }
      var plan := PlanNextRetry(used, now, outcome.gap, outcome.retryAfterSeconds, jitter(used));
      RetryPlanIsBounded(used, now, outcome.gap, outcome.retryAfterSeconds, jitter(used));
      if plan.Never? {
        return Retried(outcome.value, outcome.gap, attempts, Gave(plan.why)), times;
      }
      now := plan.instant;
      used := used + 1;
    }
  }

  /** A later attempt waits a second at least and as long as the provider asked. */
  ghost predicate Spaced<T>(before: Outcome<T>, at: int, next: int) {
    && next >= at + 1000
    && (before.retryAfterSeconds.Some? ==> next as real >= at as real + 1000.0 * before.retryAfterSeconds.value)
  }
}
