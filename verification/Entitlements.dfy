/** Allowance arithmetic: what a workspace may still run, and what each step does to the three counters. */
module Entitlements {
  import opened Text

  datatype Snapshot = Snapshot(runLimit: int, consumed: int, reserved: int)

  datatype Failure = AtAllowance | NoReservationHeld | InvalidSnapshot

  datatype Kind = NewRun | QueueRetry | ProviderCallback | InternalRecovery

  datatype Decision = Decision(admit: bool, reserves: bool)

  predicate IsValid(s: Snapshot) {
    IsSafe(s.runLimit) && IsSafe(s.consumed) && IsSafe(s.reserved) && s.runLimit >= 0 && s.consumed >= 0 && s.reserved >= 0
  }

  /** The source throws on an invalid snapshot. */
  function RemainingRuns(s: Snapshot): Result<int, Failure> {
    if !IsValid(s) then Err(InvalidSnapshot)
    else
      var left := s.runLimit - s.consumed - s.reserved;
      Ok(if left > 0 then left else 0)
  }

  /** Only a new run can take a unit; the other arrivals belong to a unit already held and are not refused. */
  function AdmissionDecision(s: Snapshot, kind: Kind): Result<Decision, Failure> {
    if kind != NewRun then Ok(Decision(true, false))
    else
      var left := RemainingRuns(s);
      if left.Err? then Err(left.error)
      else if left.value == 0 then Ok(Decision(false, false))
      else Ok(Decision(true, true))
  }

  function Reserve(s: Snapshot): Result<Snapshot, Failure> {
    if !IsValid(s) then Err(InvalidSnapshot)
    else if RemainingRuns(s) == Ok(0) then Err(AtAllowance)
    else Ok(s.(reserved := s.reserved + 1))
  }

  function Consume(s: Snapshot): Result<Snapshot, Failure> {
    if !IsValid(s) then Err(InvalidSnapshot)
    else if s.reserved < 1 then Err(NoReservationHeld)
    else Ok(s.(reserved := s.reserved - 1, consumed := s.consumed + 1))
  }

  function Release(s: Snapshot): Result<Snapshot, Failure> {
    if !IsValid(s) then Err(InvalidSnapshot)
    else if s.reserved < 1 then Err(NoReservationHeld)
    else Ok(s.(reserved := s.reserved - 1))
  }

  function Rollover(runLimit: int): Option<Snapshot> {
    if IsSafe(runLimit) && runLimit >= 0 then Some(Snapshot(runLimit, 0, 0)) else None
  }

  // ---- whole histories ----

  datatype Act = Take | Spend | Return

  ghost function Do(s: Snapshot, act: Act): Result<Snapshot, Failure> {
    match act
    case Take => Reserve(s)
    case Spend => Consume(s)
    case Return => Release(s)
  }

  /** A refused act leaves the snapshot as it is. */
  ghost function History(start: Snapshot, acts: seq<Act>): Snapshot {
    if acts == [] then start
    else
      var before := History(start, acts[..|acts| - 1]);
      var after := Do(before, acts[|acts| - 1]);
      if after.Ok? then after.value else before
  }

  /** A history comes to what its parts come to, one after the other. */
  lemma {:induction false} HistoryInParts(start: Snapshot, acts: seq<Act>, more: seq<Act>, act: Act)
    ensures History(start, []) == start
    ensures History(start, [act]) == if Do(start, act).Ok? then Do(start, act).value else start
    ensures History(start, acts + more) == History(History(start, acts), more)
    decreases |more|
  {
    assert [act][..0] == [];
    if more == [] {
      assert acts + more == acts;
    } else {
      var n := |more| - 1;
      HistoryInParts(start, acts, more[..n], act);
      assert (acts + more)[..|acts + more| - 1] == acts + more[..n];
    }
  }

  /** How many acts of this kind were granted. */
  ghost function Granted(start: Snapshot, acts: seq<Act>, kind: Act): nat {
    if acts == [] then 0
    else
      var init, last := acts[..|acts| - 1], acts[|acts| - 1];
      Granted(start, init, kind) + if last == kind && Do(History(start, init), last).Ok? then 1 else 0
  }

  /** From a fresh period, whatever is asked in whatever order: nothing is oversold, every counter stays valid, and
      every unit ever taken is held, spent or returned. */
  lemma {:induction false} UnitsAreConserved(runLimit: int, acts: seq<Act>)
    requires Rollover(runLimit).Some?
    ensures var start := Rollover(runLimit).value;
      var s := History(start, acts);
      && IsValid(s) && s.runLimit == runLimit && s.consumed + s.reserved <= runLimit
      && s.consumed == Granted(start, acts, Spend)
      && Granted(start, acts, Take) == s.reserved + s.consumed + Granted(start, acts, Return)
  {
    if acts != [] {
      UnitsAreConserved(runLimit, acts[..|acts| - 1]);
    }
  }

  /** Taking a unit is refused exactly when none is left, and takes exactly one. */
  lemma {:induction false} ReserveTakesTheNextUnit(s: Snapshot)
    requires IsValid(s)
    ensures Reserve(s).Ok? <==> s.consumed + s.reserved < s.runLimit
    ensures Reserve(s).Ok? ==> && RemainingRuns(Reserve(s).value) == Ok(RemainingRuns(s).value - 1)
                               && Release(Reserve(s).value) == Ok(s)
    ensures AdmissionDecision(s, NewRun) == Ok(Decision(Reserve(s).Ok?, Reserve(s).Ok?))
  {
  }

  /** A whole number from 0 to 2^53 - 1. */
  ghost predicate Counts(n: int) {
    0 <= n <= 9_007_199_254_740_991
  }

  lemma {:induction false} ValidExactly(s: Snapshot)
    ensures IsValid(s) <==> Counts(s.runLimit) && Counts(s.consumed) && Counts(s.reserved)
  {
  }

  /** Every step on a snapshot, counter by counter, and its failures; nothing changes the limit. */
  lemma {:induction false} StepsExactly(s: Snapshot, kind: Kind)
    requires IsValid(s)
    ensures RemainingRuns(s) == Ok(if s.consumed + s.reserved < s.runLimit then s.runLimit - s.consumed - s.reserved else 0)
    ensures Reserve(s) == if s.consumed + s.reserved < s.runLimit then Ok(Snapshot(s.runLimit, s.consumed, s.reserved + 1))
                          else Err(AtAllowance)
    ensures Consume(s) == if s.reserved > 0 then Ok(Snapshot(s.runLimit, s.consumed + 1, s.reserved - 1))
                          else Err(NoReservationHeld)
    ensures Release(s) == if s.reserved > 0 then Ok(Snapshot(s.runLimit, s.consumed, s.reserved - 1))
                          else Err(NoReservationHeld)
    ensures AdmissionDecision(s, kind) ==
      Ok(Decision(kind != NewRun || s.consumed + s.reserved < s.runLimit, kind == NewRun && s.consumed + s.reserved < s.runLimit))
  {
  }

  /** On counters that are no such numbers every step fails, except that work already held is admitted unseen. */
  lemma {:induction false} InvalidFails(s: Snapshot, kind: Kind, runLimit: int)
    requires !IsValid(s)
    ensures Reserve(s) == Consume(s) == Release(s) == Err(InvalidSnapshot) && RemainingRuns(s) == Err(InvalidSnapshot)
    ensures AdmissionDecision(s, kind) == if kind == NewRun then Err(InvalidSnapshot) else Ok(Decision(true, false))
    ensures Rollover(runLimit) == if Counts(runLimit) then Some(Snapshot(runLimit, 0, 0)) else None
  {
  }
}
