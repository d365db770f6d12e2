/** Runs from admission to settlement while the subscription is renewed. */
module Lifecycle {
  import opened Text
  import opened Calendar
  import opened Period
  import opened Allowances

  /** A run that holds a unit: its workspace, when it was admitted, and the period end the subscription had then. */
  datatype Held = Held(workspaceId: string, at: int, end: int)

  datatype State = State(rows: Rows, held: map<string, Held>)

  /** A row is opened or refreshed under any plan; a run is admitted; a run that holds a unit ends, settled or
      released, when the subscription's period end may have moved on. Texts are the clock readings written to rows. */
  datatype Step =
    | Opened(key: string, record: Allowance)
    | Started(runId: string, run: Held, now: string)
    | Ended(runId: string, end: int, settled: bool, now: string)

  /** The row of an instant under a period end. */
  function RowKey(workspaceId: string, at: int, end: int): Option<string> {
    if KeyAt(at, end).Err? then None else Key(workspaceId, KeyAt(at, end).value)
  }

  /** The row a run was admitted in, under any way to name rows. */
  type Namer = (string, int, int) -> Option<string>

  function OwnRow(name: Namer): Held -> Option<string> {
    (h: Held) => name(h.workspaceId, h.at, h.end)
  }

  /** The end that a subscription has after some renewals: a later or earlier boundary of the same anchor, in a month
      that has the anchor's day. */
  ghost predicate Renewed(end: int, later: int) {
    exists m: int ::
      later == Boundary(AnchorOf(end).day, AnchorOf(end).ms, m) && AnchorOf(end).day <= MonthDays(m)
  }

  /** Run ids are fresh, only a run that holds a unit ends, and renewals keep the day. */
  ghost predicate Legal(s: State, step: Step) {
    match step
    case Opened(key, record) => record.reserved == 0
    case Started(id, run, _) => id !in s.held && Ordinary(run.at)
    case Ended(id, end, _, _) => id in s.held && Renewed(s.held[id].end, end)
  }

  /** The state after a step, and whether the write it stands for succeeded. */
  ghost function Take(name: Namer, s: State, step: Step): (State, bool) {
    match step
    case Opened(key, record) => (State(Open(s.rows, key, record), s.held), true)
    case Started(id, run, now) =>
      var key := name(run.workspaceId, run.at, run.end);
      if key.None? then (s, false)
      else
        var (rows, ok) := Reserve(s.rows, key.value, now);
        (State(rows, if ok then s.held[id := run] else s.held), ok)
    case Ended(id, end, settled, now) =>
      if id !in s.held then (s, false)
      else
        var key := name(s.held[id].workspaceId, s.held[id].at, end);
        if key.None? then (State(s.rows, s.held - {id}), false)
        else
          var (rows, ok) := if settled then Settle(s.rows, key.value, now) else Release(s.rows, key.value, now);
          (State(rows, s.held - {id}), ok)
  }

  ghost function TakeAll(name: Namer, steps: seq<Step>): State {
    if steps == [] then State(map[], map[])
    else Take(name, TakeAll(name, steps[..|steps| - 1]), steps[|steps| - 1]).0
  }

  ghost predicate AllLegal(name: Namer, steps: seq<Step>) {
    forall i | 0 <= i < |steps| :: Legal(TakeAll(name, steps[..i]), steps[i])
  }

  // ---- each row holds one unit for each of its runs ----

  function Holders(keyOf: Held -> Option<string>, held: map<string, Held>, key: string): set<string> {
    set id | id in held && keyOf(held[id]) == Some(key)
  }

  function ReservedIn(rows: Rows, key: string): int {
    if key in rows then rows[key].reserved else 0
  }

  /** Every held unit belongs to a run and every run holds one. */
  ghost predicate Matched(keyOf: Held -> Option<string>, rows: Rows, held: map<string, Held>) {
    && (forall id | id in held :: keyOf(held[id]).Some?)
    && forall key :: ReservedIn(rows, key) == |Holders(keyOf, held, key)|
  }

  lemma {:induction false} HolderAdded(keyOf: Held -> Option<string>, held: map<string, Held>, id: string, run: Held, key: string)
    requires id !in held
    ensures |Holders(keyOf, held[id := run], key)| == |Holders(keyOf, held, key)| + if keyOf(run) == Some(key) then 1 else 0
  {
    var more := Holders(keyOf, held[id := run], key);
    if keyOf(run) == Some(key) {
      assert more == Holders(keyOf, held, key) + {id};
    } else {
      assert more == Holders(keyOf, held, key);
    }
  }

  lemma {:induction false} HolderGone(keyOf: Held -> Option<string>, held: map<string, Held>, id: string, key: string)
    requires id in held
    ensures |Holders(keyOf, held - {id}, key)| == |Holders(keyOf, held, key)| - if keyOf(held[id]) == Some(key) then 1 else 0
  {
    var fewer := held - {id};
    assert fewer[id := held[id]] == held;
    HolderAdded(keyOf, fewer, id, held[id], key);
  }

  lemma {:induction false} StartKeepsMatch(keyOf: Held -> Option<string>, rows: Rows, held: map<string, Held>,
                                           id: string, run: Held, now: string)
    requires Matched(keyOf, rows, held) && id !in held && keyOf(run).Some?
    ensures var (after, ok) := Reserve(rows, keyOf(run).value, now);
      Matched(keyOf, after, if ok then held[id := run] else held)
  {
    var (after, ok) := Reserve(rows, keyOf(run).value, now);
    forall key
      ensures ReservedIn(after, key) == |Holders(keyOf, if ok then held[id := run] else held, key)|
    {
      HolderAdded(keyOf, held, id, run, key);
    }
  }

  /** The unit of a run is there when it ends in the run's own row. */
  lemma {:induction false} EndKeepsMatch(keyOf: Held -> Option<string>, rows: Rows, held: map<string, Held>,
                                         id: string, settled: bool, now: string)
    requires Matched(keyOf, rows, held) && id in held
    ensures var key := keyOf(held[id]).value;
      var (after, ok) := if settled then Settle(rows, key, now) else Release(rows, key, now);
      ok && Matched(keyOf, after, held - {id})
  {
    var own := keyOf(held[id]).value;
    var (after, ok) := if settled then Settle(rows, own, now) else Release(rows, own, now);
    assert id in Holders(keyOf, held, own);
    assert ReservedIn(rows, own) >= 1;
    forall key
      ensures ReservedIn(after, key) == |Holders(keyOf, held - {id}, key)|
    {
      HolderGone(keyOf, held, id, key);
    }
  }

  lemma {:induction false} OpenKeepsMatch(keyOf: Held -> Option<string>, rows: Rows, held: map<string, Held>,
                                          key: string, record: Allowance)
    requires Matched(keyOf, rows, held) && record.reserved == 0
    ensures Matched(keyOf, Open(rows, key, record), held)
  {
    forall k
      ensures ReservedIn(Open(rows, key, record), k) == ReservedIn(rows, k)
    {
    }
  }

  // ---- every history ----

  /** A run is looked for in the row it was admitted in. */
  ghost predicate KeepsRows(name: Namer) {
    forall ws: string, at, end, later | Ordinary(at) && Renewed(end, later) :: name(ws, at, later) == name(ws, at, end)
  }

  lemma {:induction false} RowKeyKeepsRows()
    ensures KeepsRows(RowKey)
  {
    forall ws: string, at, end, later | Ordinary(at) && Renewed(end, later)
      ensures RowKey(ws, at, later) == RowKey(ws, at, end)
    {
      var m: int :| later == Boundary(AnchorOf(end).day, AnchorOf(end).ms, m) && AnchorOf(end).day <= MonthDays(m);
      RenewalKeepsKeys(end, later, m);
    }
  }

  ghost predicate Consistent(name: Namer, s: State) {
    Matched(OwnRow(name), s.rows, s.held) && forall id | id in s.held :: Ordinary(s.held[id].at)
  }

  /** A unit is there for every run that ends, and the units still match the runs after any step. */
  lemma {:induction false} StepKeepsMatch(name: Namer, s: State, step: Step)
    requires KeepsRows(name) && Consistent(name, s) && Legal(s, step)
    ensures Consistent(name, Take(name, s, step).0)
    ensures step.Ended? ==> Take(name, s, step).1
  {
    var own := OwnRow(name);
    match step
    case Opened(key, record) => OpenKeepsMatch(own, s.rows, s.held, key, record);
    case Started(id, run, now) =>
      if own(run).Some? {
        StartKeepsMatch(own, s.rows, s.held, id, run, now);
      }
    case Ended(id, end, settled, now) =>
      var h := s.held[id];
      assert own(h).Some? && name(h.workspaceId, h.at, end) == own(h);
      EndKeepsMatch(own, s.rows, s.held, id, settled, now);
  }

  lemma {:induction false} StepsKeepMatch(name: Namer, steps: seq<Step>)
    requires KeepsRows(name) && AllLegal(name, steps)
    ensures Consistent(name, TakeAll(name, steps))
  {
    if steps == [] {
      assert forall key :: Holders(OwnRow(name), map[], key) == {};
    } else {
      var n := |steps| - 1;
      var init := steps[..n];
      assert forall i | 0 <= i < n :: init[..i] == steps[..i] && init[i] == steps[i];
      StepsKeepMatch(name, init);
      StepKeepsMatch(name, TakeAll(name, init), steps[n]);
    }
  }

  /** Over every history of openings under any plans, runs admitted and runs ended once each, with any number of
      renewals that keep the day in between: every settle and every release finds its unit. */
  lemma {:induction false} EveryRunSettles(steps: seq<Step>, i: nat)
    requires AllLegal(RowKey, steps) && i < |steps| && steps[i].Ended?
    ensures Take(RowKey, TakeAll(RowKey, steps[..i]), steps[i]).1
  {
    RowKeyKeepsRows();
    EveryRunFindsItsUnit(RowKey, steps, i);
  }

  lemma {:induction false} EveryRunFindsItsUnit(name: Namer, steps: seq<Step>, i: nat)
    requires KeepsRows(name) && AllLegal(name, steps) && i < |steps| && steps[i].Ended?
    ensures Take(name, TakeAll(name, steps[..i]), steps[i]).1
  {
    var init := steps[..i];
    assert forall j | 0 <= j < i :: init[..j] == steps[..j] && init[j] == steps[j];
    StepsKeepMatch(name, init);
    StepKeepsMatch(name, TakeAll(name, init), steps[i]);
  }
}
