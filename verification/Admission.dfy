/** The gate in front of the reservation: is this workspace served, in which period, and is a unit left? */
module Admission {
  import opened Text
  import opened Calendar
  import opened Period
  import opened Allowances
  import E = Entitlements

  /** What the gate reads of a subscription. Instants are milliseconds. */
  datatype Subscription = Subscription(status: SubscriptionStatus, currentPeriodEnd: Option<int>, updatedAt: int)

  const DAY := 86_400_000

  // ---- service and payment recovery ----

  datatype Phase = Serving | InRecoveryWindow | WindowElapsed | SuspendedUnpaid | NotApplicable

  datatype Window = Window(phase: Phase, startedAt: Option<int>, endsAt: Option<int>, daysRemaining: int,
                           runsPaused: bool, needsSuspension: bool)

  function WindowStart(sub: Subscription): int {
    if sub.currentPeriodEnd.Some? then sub.currentPeriodEnd.value else sub.updatedAt
  }

  function CeilDiv(a: int, b: int): int
    requires b > 0
  {
    -((-a) / b)
  }

  function PaymentRecoveryWindow(sub: Option<Subscription>, now: int, graceDays: int): Window {
    if sub.None? then Window(NotApplicable, None, None, 0, false, false)
    else
      var start := WindowStart(sub.value);
      var end := start + graceDays * DAY;
      match sub.value.status
      case Active => Window(Serving, None, None, 0, false, false)
      case Trialing => Window(Serving, None, None, 0, false, false)
      case Unpaid => Window(SuspendedUnpaid, Some(start), Some(end), 0, true, false)
      case PastDue =>
        if now < end then
          Window(InRecoveryWindow, Some(start), Some(end), if CeilDiv(end - now, DAY) > 0 then CeilDiv(end - now, DAY) else 0,
                 true, false)
        else Window(WindowElapsed, Some(start), Some(end), 0, true, true)
      case _ => Window(NotApplicable, None, None, 0, true, false)
  }

  /** The single flag the admission path reads, with the recovery window layered on. */
  predicate AdmitsNewRuns(sub: Option<Subscription>, now: int, graceDays: int) {
    sub.Some? && Serves(sub.value.status) && !PaymentRecoveryWindow(sub, now, graceDays).runsPaused
  }

  /** The window, status by status. It runs from the paid period's end, or else from the last update, for the days of
      grace; the days that remain are rounded up. */
  lemma {:induction false} WindowByStatus(sub: Subscription, now: int, graceDays: int, start: int, end: int)
    requires start == (if sub.currentPeriodEnd.Some? then sub.currentPeriodEnd.value else sub.updatedAt)
    requires end == start + graceDays * 86_400_000
    ensures PaymentRecoveryWindow(None, now, graceDays) == Window(NotApplicable, None, None, 0, false, false)
    ensures var w := PaymentRecoveryWindow(Some(sub), now, graceDays);
      && (sub.status in {Active, Trialing} ==> w == Window(Serving, None, None, 0, false, false))
      && (sub.status == Unpaid ==> w == Window(SuspendedUnpaid, Some(start), Some(end), 0, true, false))
      && (sub.status == PastDue && now < end ==>
            && w == Window(InRecoveryWindow, Some(start), Some(end), w.daysRemaining, true, false)
            && end - now <= w.daysRemaining * 86_400_000 < end - now + 86_400_000)
      && (sub.status == PastDue && now >= end ==> w == Window(WindowElapsed, Some(start), Some(end), 0, true, true))
      && (sub.status in {Incomplete, IncompleteExpired, Canceled, Paused} ==>
            w == Window(NotApplicable, None, None, 0, true, false))
  {
    CeilDivBounds(end - now, DAY);
  }

  /** The window only ever pauses, and only subscriptions that were not serving anyway. */
  lemma {:induction false} RecoveryNeverAdmits(sub: Option<Subscription>, now: int, graceDays: int)
    ensures AdmitsNewRuns(sub, now, graceDays) <==> sub.Some? && sub.value.status in {Active, Trialing}
    ensures var w := PaymentRecoveryWindow(sub, now, graceDays);
      && (w.needsSuspension <==> sub.Some? && sub.value.status == PastDue && now >= WindowStart(sub.value) + graceDays * DAY)
      && (w.phase == InRecoveryWindow ==> w.endsAt.value - now <= w.daysRemaining * DAY < w.endsAt.value - now + DAY
                                          && w.daysRemaining >= 1)
  {
    if sub.Some? {
      CeilDivBounds(WindowStart(sub.value) + graceDays * DAY - now, DAY);
    }
  }

  lemma {:induction false} CeilDivBounds(a: int, b: int)
    requires b > 0
    ensures a <= CeilDiv(a, b) * b < a + b
    ensures a > 0 ==> CeilDiv(a, b) >= 1
  {
    var q := (-a) / b;
    assert q * b <= -a < q * b + b;
  }

  // ---- the verdict ----

  datatype Refusal = NotSubscribed | PaymentPaused | SubscriptionInactive | AtAllowance | NoAllowancePeriod

  datatype Verdict = Verdict(admit: bool, reserves: bool, billingPeriod: Option<string>, refusal: Option<Refusal>, httpStatus: int)

  /** The calls below throw on instants or counters they cannot work with. */
  datatype Fault = BadInstant | BadCounters

  function Refuse(refusal: Refusal, httpStatus: int, period: Option<string>): Verdict {
    Verdict(false, false, period, Some(refusal), httpStatus)
  }

  function Admit(reserves: bool, period: Option<string>): Verdict {
    Verdict(true, reserves, period, None, 200)
  }

  function PeriodFor(keyAt: (int, int) -> Result<string, PeriodError>, sub: Option<Subscription>, at: int): Result<Option<string>, Fault> {
    if sub.None? || sub.value.currentPeriodEnd.None? then Ok(None)
    else
      var key := keyAt(at, sub.value.currentPeriodEnd.value);
      if key.Err? then Err(BadInstant) else Ok(Some(key.value))
  }

  /** `keyAt` is allowancePeriodKeyAt; the rows and the subscription are what the store answers. */
  function CheckAdmission(keyAt: (int, int) -> Result<string, PeriodError>, rows: Rows, workspaceId: string,
                          sub: Option<Subscription>, kind: E.Kind, at: int, graceDays: int): Result<Verdict, Fault> {
    var period := PeriodFor(keyAt, sub, at);
    if !AdmitsNewRuns(sub, at, graceDays) then
      if kind != E.NewRun then
        if period.Err? then Err(period.error) else Ok(Admit(false, period.value))
      else if sub.None? then Ok(Refuse(NotSubscribed, 402, None))
      else
        var recovery := PaymentRecoveryWindow(sub, at, graceDays);
        if recovery.runsPaused && recovery.phase != NotApplicable then Ok(Refuse(PaymentPaused, 402, None))
        else Ok(Refuse(SubscriptionInactive, 402, None))
    else if period.Err? then Err(period.error)
    else if period.value.None? then Ok(Refuse(NoAllowancePeriod, 409, None))
    else
      var key := Key(workspaceId, period.value.value);
      if key.None? then Err(BadInstant)
      else if key.value !in rows then Ok(Refuse(NoAllowancePeriod, 409, period.value))
      else
        var decision := E.AdmissionDecision(Counters(rows[key.value]), kind);
        if decision.Err? then Err(BadCounters)
        else if !decision.value.admit then Ok(Refuse(AtAllowance, 429, period.value))
        else Ok(Admit(decision.value.reserves, period.value))
  }

  /** The whole verdict on a new run for a served workspace, from the period end, the key and the row. */
  lemma {:induction false} ServedVerdict(keyAt: (int, int) -> Result<string, PeriodError>, rows: Rows, workspaceId: string,
                                         sub: Subscription, at: int, graceDays: int)
    requires sub.status in {Active, Trialing}
    ensures var v := CheckAdmission(keyAt, rows, workspaceId, Some(sub), E.NewRun, at, graceDays);
      match sub.currentPeriodEnd
      case None => v == Ok(Verdict(false, false, None, Some(NoAllowancePeriod), 409))
      case Some(end) =>
        match keyAt(at, end)
        case Err(_) => v == Err(BadInstant)
        case Ok(period) =>
          if !IsAllowancePeriodKey(period) then v == Err(BadInstant)
          else
            var key := workspaceId + "|" + period;
            if key !in rows then v == Ok(Verdict(false, false, Some(period), Some(NoAllowancePeriod), 409))
            else
              var row := rows[key];
              if !(E.Counts(row.runLimit) && E.Counts(row.consumed) && E.Counts(row.reserved)) then v == Err(BadCounters)
              else if row.consumed + row.reserved >= row.runLimit then
                v == Ok(Verdict(false, false, Some(period), Some(Refusal.AtAllowance), 429))
              else v == Ok(Verdict(true, true, Some(period), None, 200))
  {
    RecoveryNeverAdmits(Some(sub), at, graceDays);
  }

  /** Without service a new run is refused for the account, and held work goes on under the period it is in, if any. */
  lemma {:induction false} UnservedVerdict(keyAt: (int, int) -> Result<string, PeriodError>, rows: Rows, workspaceId: string,
                                           sub: Option<Subscription>, kind: E.Kind, at: int, graceDays: int)
    requires sub.Some? ==> sub.value.status !in {Active, Trialing}
    ensures var v := CheckAdmission(keyAt, rows, workspaceId, sub, kind, at, graceDays);
      && (kind == E.NewRun ==>
            v == Ok(Verdict(false, false, None,
                            Some(if sub.None? then NotSubscribed
                                 else if sub.value.status in {PastDue, Unpaid} then PaymentPaused
                                 else SubscriptionInactive), 402)))
      && (kind != E.NewRun ==>
            v == if sub.None? || sub.value.currentPeriodEnd.None? then Ok(Verdict(true, false, None, None, 200))
                 else
                   match keyAt(at, sub.value.currentPeriodEnd.value)
                   case Err(_) => Err(BadInstant)
                   case Ok(period) => Ok(Verdict(true, false, Some(period), None, 200)))
  {
    RecoveryNeverAdmits(sub, at, graceDays);
  }

  /** The gate and the arbiter agree: from the same state a new run is let through exactly when its workspace is served,
      its period is known, the row's counters are sound and reserving in that row succeeds. */
  lemma {:induction false} GateAgreesWithReservation(keyAt: (int, int) -> Result<string, PeriodError>, rows: Rows, workspaceId: string,
                                  sub: Option<Subscription>, at: int, graceDays: int, now: string)
    ensures var v := CheckAdmission(keyAt, rows, workspaceId, sub, E.NewRun, at, graceDays);
      (v.Ok? && v.value.admit) <==>
        && sub.Some? && sub.value.status in {Active, Trialing}
        && PeriodFor(keyAt, sub, at).Ok? && PeriodFor(keyAt, sub, at).value.Some?
        && var key := Key(workspaceId, PeriodFor(keyAt, sub, at).value.value);
           && key.Some? && key.value in rows && E.IsValid(Counters(rows[key.value]))
           && Reserve(rows, key.value, now).1
  {
    RecoveryNeverAdmits(sub, at, graceDays);
  }

  /** Why a new run is refused, exactly: 402 is about the account, 409 about a missing period or row, 429 about the
      allowance; a failed payment is named as such only where payment failed. */
  lemma {:induction false} RefusalsAreExact(keyAt: (int, int) -> Result<string, PeriodError>, rows: Rows, workspaceId: string,
                                            sub: Option<Subscription>, at: int, graceDays: int)
    requires CheckAdmission(keyAt, rows, workspaceId, sub, E.NewRun, at, graceDays).Ok?
    ensures var v := CheckAdmission(keyAt, rows, workspaceId, sub, E.NewRun, at, graceDays).value;
      var served := sub.Some? && sub.value.status in {Active, Trialing};
      && (v.httpStatus == 402 <==> !served)
      && (v.refusal == Some(NotSubscribed) <==> sub.None?)
      && (v.refusal == Some(PaymentPaused) <==> sub.Some? && sub.value.status in {PastDue, Unpaid})
      && (v.refusal == Some(SubscriptionInactive) <==> sub.Some? && !served && sub.value.status !in {PastDue, Unpaid})
      && (v.refusal == Some(AtAllowance) <==> v.httpStatus == 429)
      && (v.refusal == Some(NoAllowancePeriod) <==> v.httpStatus == 409)
      && (v.httpStatus == 429 ==>
            && v.billingPeriod.Some? && Key(workspaceId, v.billingPeriod.value).Some?
            && !Reserve(rows, Key(workspaceId, v.billingPeriod.value).value, "").1)
      && (v.httpStatus == 409 ==> v.billingPeriod.None? || Key(workspaceId, v.billingPeriod.value).value !in rows)
      && (v.refusal.None? <==> v.admit && v.httpStatus == 200)
  {
    RecoveryNeverAdmits(sub, at, graceDays);
  }

  /** Only new runs reserve, and what the gate says to reserve can be reserved, under the period it names. */
  lemma {:induction false} GrantedReservationSucceeds(keyAt: (int, int) -> Result<string, PeriodError>, rows: Rows, workspaceId: string,
                                   sub: Option<Subscription>, kind: E.Kind, at: int, graceDays: int, now: string)
    requires CheckAdmission(keyAt, rows, workspaceId, sub, kind, at, graceDays).Ok?
    requires CheckAdmission(keyAt, rows, workspaceId, sub, kind, at, graceDays).value.reserves
    ensures var v := CheckAdmission(keyAt, rows, workspaceId, sub, kind, at, graceDays).value;
      && kind == E.NewRun && v.admit && v.billingPeriod.Some?
      && Key(workspaceId, v.billingPeriod.value).Some?
      && Reserve(rows, Key(workspaceId, v.billingPeriod.value).value, now).1
  {
    RecoveryNeverAdmits(sub, at, graceDays);
  }

  /** Work already accepted is admitted without service, without payment and without a unit left. It is refused exactly
      where a served workspace has no period, or no row for it. */
  lemma {:induction false} HeldWorkIsRefusedExactlyWhen(keyAt: (int, int) -> Result<string, PeriodError>, rows: Rows, workspaceId: string,
                                                        sub: Option<Subscription>, kind: E.Kind, at: int, graceDays: int)
    requires kind != E.NewRun
    ensures var v := CheckAdmission(keyAt, rows, workspaceId, sub, kind, at, graceDays);
      var served, period := sub.Some? && sub.value.status in {Active, Trialing}, PeriodFor(keyAt, sub, at);
      && (v.Err? <==> period.Err? || (served && period.value.Some? && Key(workspaceId, period.value.value).None?))
      && (v.Ok? ==>
            && !v.value.reserves
            && (!v.value.admit <==>
                  served && (period.value.None? || Key(workspaceId, period.value.value).value !in rows))
            && (!v.value.admit ==> v.value.refusal == Some(NoAllowancePeriod) && v.value.httpStatus == 409)
            && (v.value.admit ==> v.value.billingPeriod == period.value))
  {
    RecoveryNeverAdmits(sub, at, graceDays);
  }

  // ---- from admission to settlement ----

  /** A run admitted in a period is settled under a key computed from whatever period end the subscription has by then.
      After any number of renewals that end is a later boundary of the same anchor; while it keeps the anchor's day,
      the key is the one that was reserved under, and the settle succeeds exactly while a unit is outstanding there. */
  lemma {:induction false} SettleAfterRenewals(plan: Plan, arrivals: seq<Arrival>, workspaceId: string, at: int, end: int, later: int, m: int,
                            key: string, now: string)
    requires plan.runsPerPeriod >= 0 && Ordinary(at)
    requires later == Boundary(AnchorOf(end).day, AnchorOf(end).ms, m) && AnchorOf(end).day <= MonthDays(m)
    requires KeyAt(at, end).Ok? && Key(workspaceId, KeyAt(at, end).value) == Some(key)
    ensures KeyAt(at, later) == KeyAt(at, end)
    ensures var found, t := Key(workspaceId, KeyAt(at, later).value), Allowances.Count(plan, arrivals, key);
      found.Some? && (Settle(Run(plan, arrivals), found.value, now).1 <==> t.granted > t.settled + t.released)
  {
    RenewalKeepsKeys(end, later, m);
    SettleFindsItsUnit(plan, arrivals, key, now);
  }

  /** The two ways a period's row gets its key agree inside the paid period: the date of the end that opens it and
      the key computed for an instant within it. */
  lemma {:induction false} AdmissionFindsThePaidRow(workspaceId: string, at: int, end: int, m: int)
    requires Ordinary(at) && m == MonthIndex(end / MS_PER_DAY)
    requires Boundary(AnchorOf(end).day, AnchorOf(end).ms, m - 1) <= at < end
    ensures KeyAt(at, end).Ok? ==> EndKey(workspaceId, Some(end)) == Key(workspaceId, KeyAt(at, end).value)
  {
    EntryPointsAgree(at, end, m);
  }
}
