/** Allowance rows, the events that open them and the runs that draw on them. */
module Allowances {
  import opened Text
  import opened Period
  import E = Entitlements

  datatype Allowance = Allowance(id: string, workspaceId: string, billingPeriod: string, planVersion: int,
                                 runLimit: int, consumed: int, reserved: int, updatedAt: string)

  type Rows = map<string, Allowance>

  /** The source refuses, loudly, a period that is not a date. */
  function Key(workspaceId: string, period: string): Option<string> {
    if IsAllowancePeriodKey(period) then Some(workspaceId + "|" + period) else None
  }

  /** Workspace and period can be read back from the key: no two pairs share a row. */
  lemma {:induction false} KeyIsInjective(ws: string, p: string, ws': string, p': string)
    requires Key(ws, p).Some? && Key(ws, p) == Key(ws', p')
    ensures ws == ws' && p == p'
  {
    var k, k' := ws + "|" + p, ws' + "|" + p';
    assert |p| == 10 && |p'| == 10;
    assert ws == k[..|k| - 11] && ws' == k'[..|k'| - 11];
    assert p == k[|k| - 10..] && p' == k'[|k'| - 10..];
  }

  /** A period is a date as YYYY-MM-DD, and the key is the workspace, a bar and the date. */
  lemma {:induction false} KeySays(workspaceId: string, period: string, key: string)
    ensures Key(workspaceId, period) == Some(key) <==>
      && key == workspaceId + "|" + period && |period| == 10 && period[4] == '-' && period[7] == '-'
      && forall i | 0 <= i < 10 && i != 4 && i != 7 :: period[i] in "0123456789"
  {
    if |period| == 10 {
      assert forall i | 0 <= i < 4 :: period[..4][i] == period[i];
      assert period[5..7][0] == period[5] && period[5..7][1] == period[6] && period[8..][0] == period[8] && period[8..][1] == period[9];
    }
  }

  /** Every row sits under the key of its own workspace and period. */
  ghost predicate Keyed(rows: Rows) {
    forall k | k in rows :: Key(rows[k].workspaceId, rows[k].billingPeriod) == Some(k)
  }

  /** No two rows are for one workspace and date. */
  ghost predicate OnePerPeriod(rows: Rows) {
    forall k, k' | k in rows && k' in rows && rows[k].workspaceId == rows[k'].workspaceId
                   && rows[k].billingPeriod == rows[k'].billingPeriod :: k == k'
  }

  lemma {:induction false} OneRowPerPeriod(rows: Rows)
    requires Keyed(rows)
    ensures OnePerPeriod(rows)
  {
  }

  // ---- the four writes, under a key ----

  function Open(rows: Rows, key: string, record: Allowance): Rows {
    if key in rows then
      rows[key := rows[key].(runLimit := record.runLimit, planVersion := record.planVersion, updatedAt := record.updatedAt)]
    else rows[key := record]
  }

  function Reserve(rows: Rows, key: string, at: string): (Rows, bool) {
    if key !in rows || rows[key].runLimit - rows[key].consumed - rows[key].reserved < 1 then (rows, false)
    else (rows[key := rows[key].(reserved := rows[key].reserved + 1, updatedAt := at)], true)
  }

  function Settle(rows: Rows, key: string, at: string): (Rows, bool) {
    if key !in rows || rows[key].reserved < 1 then (rows, false)
    else
      (rows[key := rows[key].(reserved := rows[key].reserved - 1, consumed := rows[key].consumed + 1, updatedAt := at)],
       true)
  }

  function Release(rows: Rows, key: string, at: string): (Rows, bool) {
    if key !in rows || rows[key].reserved < 1 then (rows, false)
    else (rows[key := rows[key].(reserved := rows[key].reserved - 1, updatedAt := at)], true)
  }

  function Counters(row: Allowance): E.Snapshot {
    E.Snapshot(row.runLimit, row.consumed, row.reserved)
  }

  /** Each write, field by field. A unit is reserved exactly when one is left, and settled or released exactly when one
      is held; opening an open period again refreshes its limit, its plan version and its time. */
  lemma {:induction false} WritesExactly(rows: Rows, key: string, row: Allowance, record: Allowance, at: string)
    requires key in rows && row == rows[key]
    ensures Reserve(rows, key, at) ==
      if row.consumed + row.reserved >= row.runLimit then (rows, false)
      else (rows[key := Allowance(row.id, row.workspaceId, row.billingPeriod, row.planVersion, row.runLimit,
                                  row.consumed, row.reserved + 1, at)], true)
    ensures Settle(rows, key, at) ==
      if row.reserved <= 0 then (rows, false)
      else (rows[key := Allowance(row.id, row.workspaceId, row.billingPeriod, row.planVersion, row.runLimit,
                                  row.consumed + 1, row.reserved - 1, at)], true)
    ensures Release(rows, key, at) ==
      if row.reserved <= 0 then (rows, false)
      else (rows[key := Allowance(row.id, row.workspaceId, row.billingPeriod, row.planVersion, row.runLimit,
                                  row.consumed, row.reserved - 1, at)], true)
    ensures Open(rows, key, record) ==
      rows[key := Allowance(row.id, row.workspaceId, row.billingPeriod, record.planVersion, record.runLimit,
                            row.consumed, row.reserved, record.updatedAt)]
  {
  }

  /** Without a row there is nothing to reserve, settle or release, and opening adds the record. */
  lemma {:induction false} WritesWithoutRow(rows: Rows, key: string, record: Allowance, at: string)
    requires key !in rows
    ensures Reserve(rows, key, at) == Settle(rows, key, at) == Release(rows, key, at) == (rows, false)
    ensures Open(rows, key, record) == rows[key := record]
  {
  }

  /** On rows with valid counters each write succeeds and counts exactly as the pure arithmetic does. */
  lemma {:induction false} WritesRefineArithmetic(rows: Rows, key: string, at: string)
    requires key in rows && E.IsValid(Counters(rows[key]))
    ensures var pure_ := E.Reserve(Counters(rows[key]));
      var (after, ok) := Reserve(rows, key, at);
      (ok <==> pure_.Ok?) && Counters(after[key]) == (if ok then pure_.value else Counters(rows[key]))
    ensures var pure_ := E.Consume(Counters(rows[key]));
      var (after, ok) := Settle(rows, key, at);
      (ok <==> pure_.Ok?) && Counters(after[key]) == (if ok then pure_.value else Counters(rows[key]))
    ensures var pure_ := E.Release(Counters(rows[key]));
      var (after, ok) := Release(rows, key, at);
      (ok <==> pure_.Ok?) && Counters(after[key]) == (if ok then pure_.value else Counters(rows[key]))
  {
  }

  /** Opening again refreshes the terms and nothing else: no counter, no other row. */
  lemma {:induction false} OpeningAgainKeepsCounters(rows: Rows, key: string, record: Allowance, other: string)
    ensures other in rows ==> && other in Open(rows, key, record)
                              && Open(rows, key, record)[other].consumed == rows[other].consumed
                              && Open(rows, key, record)[other].reserved == rows[other].reserved
    ensures other in rows && other != key ==> Open(rows, key, record)[other] == rows[other]
    ensures Open(Open(rows, key, record), key, record) == Open(rows, key, record)
  {
  }

  // ---- events and runs ----

  datatype SubscriptionStatus =
    | Incomplete | IncompleteExpired | Trialing | Active | PastDue | Canceled | Unpaid | Paused

  predicate Serves(status: SubscriptionStatus) {
    status == Active || status == Trialing
  }

  /** What changes allowances: a paid invoice, a subscription write, and the life of a run. Period ends are instants;
      every event may be delivered again, late or out of order. */
  datatype Event =
    | InvoicePaid(workspaceId: string, periodEnd: Option<int>)
    | SubscriptionWritten(workspaceId: string, status: SubscriptionStatus, periodEnd: Option<int>)
    | RunAdmitted(workspaceId: string, period: string)
    | RunSettled(workspaceId: string, period: string)
    | RunReleased(workspaceId: string, period: string)

  /** The plan in force: how many runs a period holds. */
  datatype Plan = Plan(version: int, runsPerPeriod: int)

  /** The date of a period end, as the key both event handlers compute it. */
  function EndKey(workspaceId: string, periodEnd: Option<int>): Option<string> {
    if periodEnd.None? || KeyOf(periodEnd.value).Err? then None else Key(workspaceId, KeyOf(periodEnd.value).value)
  }

  /** The row an event is about; an event about none changes nothing. */
  function KeyOfEvent(event: Event): Option<string> {
    match event
    case InvoicePaid(ws, end) => EndKey(ws, end)
    case SubscriptionWritten(ws, status, end) => if Serves(status) then EndKey(ws, end) else None
    case RunAdmitted(ws, period) => Key(ws, period)
    case RunSettled(ws, period) => Key(ws, period)
    case RunReleased(ws, period) => Key(ws, period)
  }

  /** A fresh row for the period the key names. */
  function FreshRow(plan: Plan, event: Event, id: string, at: string): Allowance
    requires event.InvoicePaid? || event.SubscriptionWritten?
    requires event.periodEnd.Some? && KeyOf(event.periodEnd.value).Ok?
  {
    Allowance(id, event.workspaceId, KeyOf(event.periodEnd.value).value, plan.version, plan.runsPerPeriod, 0, 0, at)
  }

  /** The rows after the event, and whether a run operation succeeded. */
  function Apply(plan: Plan, rows: Rows, event: Event, id: string, at: string): (Rows, bool) {
    var key := KeyOfEvent(event);
    if key.None? then (rows, false)
    else
      match event
      case RunAdmitted(_, _) => Reserve(rows, key.value, at)
      case RunSettled(_, _) => Settle(rows, key.value, at)
      case RunReleased(_, _) => Release(rows, key.value, at)
      case _ => (Open(rows, key.value, FreshRow(plan, event, id, at)), false)
  }

  /** Ids and clock readings come from outside. */
  datatype Arrival = Arrival(event: Event, id: string, at: string)

  function Run(plan: Plan, arrivals: seq<Arrival>): Rows {
    if arrivals == [] then map[]
    else
      var last := arrivals[|arrivals| - 1];
      Apply(plan, Run(plan, arrivals[..|arrivals| - 1]), last.event, last.id, last.at).0
  }

  datatype Tally = Tally(granted: nat, settled: nat, released: nat)

  /** The successful run operations on one row, over the whole history. */
  function Count(plan: Plan, arrivals: seq<Arrival>, key: string): Tally {
    if arrivals == [] then Tally(0, 0, 0)
    else
      var init, last := arrivals[..|arrivals| - 1], arrivals[|arrivals| - 1];
      var t := Count(plan, init, key);
      if KeyOfEvent(last.event) != Some(key) || !Apply(plan, Run(plan, init), last.event, last.id, last.at).1 then t
      else if last.event.RunAdmitted? then t.(granted := t.granted + 1)
      else if last.event.RunSettled? then t.(settled := t.settled + 1)
      else t.(released := t.released + 1)
  }

  /** A row agrees with its history: nothing oversold, nothing lost. */
  ghost predicate Balanced(rows: Rows, key: string, t: Tally, limit: int) {
    if key in rows then
      && rows[key].runLimit == limit
      && 0 <= rows[key].reserved && 0 <= rows[key].consumed
      && rows[key].consumed + rows[key].reserved <= limit
      && t.settled == rows[key].consumed
      && t.granted == rows[key].reserved + rows[key].consumed + t.released
    else t == Tally(0, 0, 0)
  }

  lemma {:induction false} PutKeepsKeyed(rows: Rows, key: string, row: Allowance)
    requires Keyed(rows)
    requires Key(row.workspaceId, row.billingPeriod) == Some(key)
             || (key in rows && row.workspaceId == rows[key].workspaceId && row.billingPeriod == rows[key].billingPeriod)
    ensures Keyed(rows[key := row])
  {
  }

  lemma {:induction false} ReserveKeepsKeyed(rows: Rows, key: string, at: string)
    requires Keyed(rows)
    ensures Keyed(Reserve(rows, key, at).0)
  {
    if key in rows {
      PutKeepsKeyed(rows, key, rows[key].(reserved := rows[key].reserved + 1, updatedAt := at));
    }
  }

  lemma {:induction false} SettleKeepsKeyed(rows: Rows, key: string, at: string)
    requires Keyed(rows)
    ensures Keyed(Settle(rows, key, at).0)
  {
    if key in rows {
      PutKeepsKeyed(rows, key, rows[key].(reserved := rows[key].reserved - 1, consumed := rows[key].consumed + 1, updatedAt := at));
    }
  }

  lemma {:induction false} ReleaseKeepsKeyed(rows: Rows, key: string, at: string)
    requires Keyed(rows)
    ensures Keyed(Release(rows, key, at).0)
  {
    if key in rows {
      PutKeepsKeyed(rows, key, rows[key].(reserved := rows[key].reserved - 1, updatedAt := at));
    }
  }

  lemma {:induction false} OpenKeepsKeyed(rows: Rows, key: string, record: Allowance)
    requires Keyed(rows) && Key(record.workspaceId, record.billingPeriod) == Some(key)
    ensures Keyed(Open(rows, key, record))
  {
    PutKeepsKeyed(rows, key, Open(rows, key, record)[key]);
  }

  lemma {:induction false} ApplyKeepsKeyed(plan: Plan, rows: Rows, event: Event, id: string, at: string)
    requires Keyed(rows)
    ensures Keyed(Apply(plan, rows, event, id, at).0)
  {
    var key := KeyOfEvent(event);
    if key.Some? {
      match event
      case RunAdmitted(_, _) => ReserveKeepsKeyed(rows, key.value, at);
      case RunSettled(_, _) => SettleKeepsKeyed(rows, key.value, at);
      case RunReleased(_, _) => ReleaseKeepsKeyed(rows, key.value, at);
      case _ => OpenKeepsKeyed(rows, key.value, FreshRow(plan, event, id, at));
    }
  }

  /** What one arrival does to one row. */
  lemma {:induction false} ApplyKeepsBalance(plan: Plan, rows: Rows, event: Event, id: string, at: string, key: string, t: Tally, t': Tally)
    requires plan.runsPerPeriod >= 0 && Balanced(rows, key, t, plan.runsPerPeriod)
    requires var ok := KeyOfEvent(event) == Some(key) && Apply(plan, rows, event, id, at).1;
      t' == if !ok then t
            else if event.RunAdmitted? then t.(granted := t.granted + 1)
            else if event.RunSettled? then t.(settled := t.settled + 1)
            else t.(released := t.released + 1)
    ensures Balanced(Apply(plan, rows, event, id, at).0, key, t', plan.runsPerPeriod)
  {
  }

  /** Over every interleaving of duplicated, late and reordered invoices and subscription writes with runs admitted,
      settled and released, at a constant plan: one row per workspace and period-end date, every unit granted is
      held, spent or returned, and no period is ever oversold. */
  lemma {:induction false} AllowancesAreConserved(plan: Plan, arrivals: seq<Arrival>, key: string)
    requires plan.runsPerPeriod >= 0
    ensures Keyed(Run(plan, arrivals)) && OnePerPeriod(Run(plan, arrivals))
    ensures Balanced(Run(plan, arrivals), key, Count(plan, arrivals, key), plan.runsPerPeriod)
  {
    if arrivals != [] {
      var init, last := arrivals[..|arrivals| - 1], arrivals[|arrivals| - 1];
      AllowancesAreConserved(plan, init, key);
      var rows := Run(plan, init);
      ApplyKeepsKeyed(plan, rows, last.event, last.id, last.at);
      ApplyKeepsBalance(plan, rows, last.event, last.id, last.at, key, Count(plan, init, key), Count(plan, arrivals, key));
    }
    OneRowPerPeriod(Run(plan, arrivals));
  }

  /** A settle or a release finds its unit exactly while more were granted than settled and returned. */
  lemma {:induction false} SettleFindsItsUnit(plan: Plan, arrivals: seq<Arrival>, key: string, at: string)
    requires plan.runsPerPeriod >= 0
    ensures var t := Count(plan, arrivals, key);
      && (Settle(Run(plan, arrivals), key, at).1 <==> t.granted > t.settled + t.released)
      && (Release(Run(plan, arrivals), key, at).1 <==> t.granted > t.settled + t.released)
  {
    AllowancesAreConserved(plan, arrivals, key);
  }

  /** Lowering the limit of an open period is the one thing that can leave it oversold. */
  lemma {:induction false} OpeningKeepsBound(rows: Rows, key: string, record: Allowance)
    requires key in rows && rows[key].consumed + rows[key].reserved <= rows[key].runLimit
    ensures Open(rows, key, record)[key].consumed + Open(rows, key, record)[key].reserved <= Open(rows, key, record)[key].runLimit
            <==> rows[key].consumed + rows[key].reserved <= record.runLimit
  {
  }

  // ---- what each event does ----

  /** A paid invoice and a write to a subscription that is active or in trial open, or refresh, the row of the workspace
      and the date of the period end; nothing else opens one. */
  lemma {:induction false} OpeningEvents(plan: Plan, rows: Rows, ws: string, status: SubscriptionStatus, end: int, date: string,
                                         key: string, id: string, at: string)
    requires KeyOf(end) == Ok(date) && key == ws + "|" + date
    ensures var row := Allowance(id, ws, date, plan.version, plan.runsPerPeriod, 0, 0, at);
      && Apply(plan, rows, InvoicePaid(ws, Some(end)), id, at) == (Open(rows, key, row), false)
      && Apply(plan, rows, SubscriptionWritten(ws, status, Some(end)), id, at) ==
           (if status in {Active, Trialing} then Open(rows, key, row) else rows, false)
  {
  }

  lemma {:induction false} IdleEvents(plan: Plan, rows: Rows, ws: string, status: SubscriptionStatus, end: Option<int>,
                                      id: string, at: string)
    requires end.None? || KeyOf(end.value).Err?
    ensures Apply(plan, rows, InvoicePaid(ws, end), id, at) == (rows, false)
    ensures Apply(plan, rows, SubscriptionWritten(ws, status, end), id, at) == (rows, false)
  {
  }

  /** The life of a run moves one unit of the row of its workspace and period; a period that is no date moves nothing. */
  lemma {:induction false} RunEvents(plan: Plan, rows: Rows, ws: string, period: string, key: string, id: string, at: string)
    requires key == ws + "|" + period
    ensures var (admitted, settled, released) :=
        (RunAdmitted(ws, period), RunSettled(ws, period), RunReleased(ws, period));
      if IsAllowancePeriodKey(period) then
        && Apply(plan, rows, admitted, id, at) == Reserve(rows, key, at)
        && Apply(plan, rows, settled, id, at) == Settle(rows, key, at)
        && Apply(plan, rows, released, id, at) == Release(rows, key, at)
      else Apply(plan, rows, admitted, id, at) == Apply(plan, rows, settled, id, at) == Apply(plan, rows, released, id, at)
           == (rows, false)
  {
  }

  /** A history starts without rows and takes its arrivals one after another, each under its own id and clock reading. */
  lemma {:induction false} RunStepByStep(plan: Plan, arrivals: seq<Arrival>, event: Event, id: string, at: string)
    ensures Run(plan, []) == map[]
    ensures Run(plan, arrivals + [Arrival(event, id, at)]) == Apply(plan, Run(plan, arrivals), event, id, at).0
  {
    assert (arrivals + [Arrival(event, id, at)])[..|arrivals|] == arrivals;
  }
}
