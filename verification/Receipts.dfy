/** Webhook receipts: one row per provider event, in the order they were claimed. */
module Receipts {
  import opened Text

  datatype Status = Received | Processed | Ignored | Invalid | Duplicate

  datatype Receipt = Receipt(receiptId: string, provider: string, eventId: string, payloadHash: string,
                             receivedAt: string, workspaceId: Option<string>, status: Status)

  datatype Admission = Fresh(receiptId: string) | InFlight(receiptId: string) | AlreadyProcessed(receiptId: string)

  /** A map that remembers insertion order. */
  datatype Inbox = Inbox(rows: map<string, Receipt>, order: seq<string>)

  function Key(provider: string, eventId: string): string {
    provider + "|" + eventId
  }

  /** The key is the provider, a bar and the provider's event id; providers are written without bars, so it names one
      event of one provider. */
  lemma {:induction false} KeyNamesOneEvent(provider: string, eventId: string, provider': string, eventId': string)
    ensures var key := Key(provider, eventId);
      |key| == |provider| + 1 + |eventId| && key[..|provider|] == provider && key[|provider|] == '|'
      && key[|provider| + 1..] == eventId
    ensures '|' !in provider && '|' !in provider' ==>
      (Key(provider, eventId) == Key(provider', eventId') <==> provider == provider' && eventId == eventId')
  {
    var key, key' := Key(provider, eventId), Key(provider', eventId');
    assert key[|provider|] == '|' && key'[|provider'|] == '|';
    assert key[|provider| + 1..] == eventId && key'[|provider'| + 1..] == eventId';
    if '|' !in provider && '|' !in provider' && key == key' {
      assert forall i | 0 <= i < |provider| :: key[i] == provider[i] && provider[i] in provider;
      assert forall i | 0 <= i < |provider'| :: key[i] == provider'[i] && provider'[i] in provider';
      assert |provider| == |provider'|;
      assert key[..|provider|] == provider && key[..|provider'|] == provider';
    }
  }

  ghost predicate Ordered(box: Inbox) {
    && (forall i, j | 0 <= i < j < |box.order| :: box.order[i] != box.order[j])
    && (forall k :: k in box.order <==> k in box.rows)
    && forall k | k in box.rows :: Key(box.rows[k].provider, box.rows[k].eventId) == k
  }

  function Begin(box: Inbox, row: Receipt): (Inbox, Admission) {
    var key := Key(row.provider, row.eventId);
    if key in box.rows then
      var existing := box.rows[key];
      (box, if existing.status == Received then InFlight(existing.receiptId) else AlreadyProcessed(existing.receiptId))
    else
      (Inbox(box.rows[key := row.(status := Received)], box.order + [key]), Fresh(row.receiptId))
  }

  /** The first claimed row that the predicate accepts, as an index into the order. */
  function FirstRow(box: Inbox, wanted: Receipt -> bool, from: nat): (i: nat)
    requires from <= |box.order| && forall k | k in box.order :: k in box.rows
    ensures from <= i <= |box.order|
    ensures i < |box.order| ==> wanted(box.rows[box.order[i]])
    ensures forall j | from <= j < i :: !wanted(box.rows[box.order[j]])
    decreases |box.order| - from
  {
    if from == |box.order| || wanted(box.rows[box.order[from]]) then from else FirstRow(box, wanted, from + 1)
  }

  function Complete(box: Inbox, receiptId: string, status: Status, workspaceId: Option<Option<string>>): Inbox
    requires Ordered(box)
  {
    var i := FirstRow(box, (r: Receipt) => r.receiptId == receiptId, 0);
    if i == |box.order| then box
    else
      var row := box.rows[box.order[i]];
      box.(rows := box.rows[box.order[i] := row.(status := status,
                                                 workspaceId := if workspaceId.Some? then workspaceId.value else row.workspaceId)])
  }

  function Abandon(box: Inbox, eventId: string): Inbox
    requires Ordered(box)
  {
    var i := FirstRow(box, (r: Receipt) => r.eventId == eventId, 0);
    if i == |box.order| then box
    else Inbox(box.rows - {box.order[i]}, box.order[..i] + box.order[i + 1..])
  }

  /** The row given back, once it is found. */
  lemma {:induction false} AbandonAt(box: Inbox, eventId: string, i: nat, after: Inbox)
    requires Ordered(box) && i < |box.order| && FirstRow(box, (r: Receipt) => r.eventId == eventId, 0) == i
    requires after.rows == box.rows - {box.order[i]} && after.order == box.order[..i] + box.order[i + 1..]
    ensures after == Abandon(box, eventId) && Ordered(after)
  {
    AbandonKeepsOrder(box, eventId);
  }

  lemma {:induction false} BeginKeepsOrder(box: Inbox, row: Receipt)
    requires Ordered(box)
    ensures Ordered(Begin(box, row).0)
  {
  }

  lemma {:induction false} CompleteKeepsOrder(box: Inbox, receiptId: string, status: Status, workspaceId: Option<Option<string>>)
    requires Ordered(box)
    ensures Ordered(Complete(box, receiptId, status, workspaceId))
    ensures Complete(box, receiptId, status, workspaceId).rows.Keys == box.rows.Keys
  {
  }

  lemma {:induction false} AbandonKeepsOrder(box: Inbox, eventId: string)
    requires Ordered(box)
    ensures Ordered(Abandon(box, eventId))
    ensures forall k | k in box.rows && box.rows[k].eventId != eventId :: k in Abandon(box, eventId).rows
  {
    var i := FirstRow(box, (r: Receipt) => r.eventId == eventId, 0);
    if i < |box.order| {
      DropOne(box.order, i, box.order[..i] + box.order[i + 1..]);
    }
  }

  lemma {:induction false} DropOne(order: seq<string>, i: nat, rest: seq<string>)
    requires i < |order| && rest == order[..i] + order[i + 1..]
    requires forall m, n | 0 <= m < n < |order| :: order[m] != order[n]
    ensures forall m, n | 0 <= m < n < |rest| :: rest[m] != rest[n]
    ensures forall k :: k in rest <==> k in order && k != order[i]
  {
    assert forall j | 0 <= j < |rest| :: rest[j] == order[if j < i then j else j + 1];
    forall k | k in order && k != order[i]
      ensures k in rest
    {
      var j :| 0 <= j < |order| && order[j] == k;
      assert rest[if j < i then j else j - 1] == k;
    }
  }

  // ---- whole histories ----

  datatype Step =
    | Beginning(row: Receipt)
    | Completing(receiptId: string, status: Status, workspaceId: Option<Option<string>>)
    | Abandoning(eventId: string)

  ghost function Do(box: Inbox, step: Step): Inbox
    requires Ordered(box)
  {
    match step
    case Beginning(row) => Begin(box, row).0
    case Completing(receiptId, status, workspaceId) => Complete(box, receiptId, status, workspaceId)
    case Abandoning(eventId) => Abandon(box, eventId)
  }

  lemma {:induction false} StepKeepsOrder(box: Inbox, step: Step)
    requires Ordered(box)
    ensures Ordered(Do(box, step))
    ensures forall k | k in box.rows && (step.Abandoning? ==> box.rows[k].eventId != step.eventId) :: k in Do(box, step).rows
  {
    match step
    case Beginning(row) => BeginKeepsOrder(box, row);
    case Completing(receiptId, status, workspaceId) => CompleteKeepsOrder(box, receiptId, status, workspaceId);
    case Abandoning(eventId) => AbandonKeepsOrder(box, eventId);
  }

  ghost function Run(box: Inbox, steps: seq<Step>): (r: Inbox)
    requires Ordered(box)
    ensures Ordered(r)
  {
    if steps == [] then box
    else
      var before := Run(box, steps[..|steps| - 1]);
      StepKeepsOrder(before, steps[|steps| - 1]);
      Do(before, steps[|steps| - 1])
  }

  /** A history comes to what its parts come to, one after the other. */
  lemma {:induction false} RunInParts(box: Inbox, steps: seq<Step>, more: seq<Step>, step: Step)
    requires Ordered(box)
    ensures Run(box, []) == box && Run(box, [step]) == Do(box, step)
    ensures Run(box, steps + more) == Run(Run(box, steps), more)
    decreases |more|
  {
    assert [step][..0] == [];
    if more == [] {
      assert steps + more == steps;
    } else {
      var n := |more| - 1;
      RunInParts(box, steps, more[..n], step);
      assert (steps + more)[..|steps + more| - 1] == steps + more[..n];
    }
  }

  /** A claimed event stays claimed until that very event id is given back. */
  lemma {:induction false} ClaimStays(box: Inbox, steps: seq<Step>, key: string, eventId: string)
    requires Ordered(box) && key in box.rows && box.rows[key].eventId == eventId
    requires forall n | 0 <= n < |steps| :: steps[n] != Abandoning(eventId)
    ensures key in Run(box, steps).rows && Run(box, steps).rows[key].eventId == eventId
  {
    if steps != [] {
      var init := steps[..|steps| - 1];
      ClaimStays(box, init, key, eventId);
      StepKeepsOrder(Run(box, init), steps[|steps| - 1]);
      SameEvent(Run(box, init), steps[|steps| - 1], key);
    }
  }

  lemma {:induction false} SameEvent(box: Inbox, step: Step, key: string)
    requires Ordered(box) && key in box.rows && key in Do(box, step).rows
    ensures Do(box, step).rows[key].eventId == box.rows[key].eventId
  {
  }

  function Claimed(box: Inbox, row: Receipt): (r: Inbox)
    requires Ordered(box)
    ensures Ordered(r)
  {
    BeginKeepsOrder(box, row);
    Begin(box, row).0
  }

  lemma {:induction false} FreshMeansUnclaimed(box: Inbox, row: Receipt, key: string)
    requires Ordered(box) && key == Key(row.provider, row.eventId)
    ensures Begin(box, row).1.Fresh? <==> key !in box.rows
    ensures key !in box.rows ==> key in Claimed(box, row).rows && Claimed(box, row).rows[key].eventId == row.eventId
  {
  }

  /** Two deliveries of one event are both fresh only if the event id was given back in between. */
  lemma {:induction false} FreshOncePerAbandon(box: Inbox, first: Receipt, claimed: Inbox, between: seq<Step>, now: Inbox, second: Receipt)
    requires Ordered(box) && claimed == Claimed(box, first) && now == Run(claimed, between)
    requires first.provider == second.provider && first.eventId == second.eventId
    requires Begin(box, first).1.Fresh? && Begin(now, second).1.Fresh?
    ensures exists n | 0 <= n < |between| :: between[n] == Abandoning(first.eventId)
  {
    var key := Key(first.provider, first.eventId);
    FreshMeansUnclaimed(box, first, key);
    FreshMeansUnclaimed(now, second, key);
    Unabandoned(claimed, between, now, key, first.eventId);
  }

  lemma {:induction false} Unabandoned(claimed: Inbox, between: seq<Step>, now: Inbox, key: string, eventId: string)
    requires Ordered(claimed) && now == Run(claimed, between)
    requires key in claimed.rows && claimed.rows[key].eventId == eventId && key !in now.rows
    ensures exists n | 0 <= n < |between| :: between[n] == Abandoning(eventId)
  {
    if forall n | 0 <= n < |between| :: between[n] != Abandoning(eventId) {
      ClaimStays(claimed, between, key, eventId);
    }
  }

  /** Giving back is by event id alone: it removes the oldest claim with that id, whoever the provider is. */
  lemma {:induction false} AbandonRemovesTheOldest(box: Inbox, eventId: string, k: string)
    requires Ordered(box) && k in box.rows
    ensures k !in Abandon(box, eventId).rows <==>
              exists i | 0 <= i < |box.order| :: box.order[i] == k && box.rows[k].eventId == eventId
                         && forall j | 0 <= j < i :: box.rows[box.order[j]].eventId != eventId
  {
    var i := FirstRow(box, (r: Receipt) => r.eventId == eventId, 0);
    if i < |box.order| && box.order[i] == k {
      assert k !in Abandon(box, eventId).rows;
    } else {
      assert k in Abandon(box, eventId).rows;
      forall m | 0 <= m < |box.order| && box.order[m] == k && box.rows[k].eventId == eventId
        ensures exists j | 0 <= j < m :: box.rows[box.order[j]].eventId == eventId
      {
        assert i < m;
        assert box.rows[box.order[i]].eventId == eventId;
      }
    }
  }

  /** So when a second provider reuses an event id, giving it back frees the first provider's claim and keeps
      the second's. */
  lemma {:induction false} AbandonCrossesProviders(box: Inbox, eventId: string, ka: string, kb: string)
    requires Ordered(box) && ka in box.rows && kb in box.rows && ka != kb
    requires box.rows[ka].eventId == eventId && box.rows[kb].eventId == eventId
    requires |box.order| >= 2 && box.order[|box.order| - 2..] == [ka, kb]
    requires forall k | k in box.rows && k != ka && k != kb :: box.rows[k].eventId != eventId
    ensures ka !in Abandon(box, eventId).rows && kb in Abandon(box, eventId).rows
  {
    var n := |box.order| - 2;
    assert box.order[n] == box.order[n..][0] == ka && box.order[n + 1] == box.order[n..][1] == kb;
    forall j | 0 <= j < n
      ensures box.rows[box.order[j]].eventId != eventId
    {
      assert box.order[j] != box.order[n] && box.order[j] != box.order[n + 1];
    }
    AbandonRemovesTheOldest(box, eventId, ka);
    AbandonRemovesTheOldest(box, eventId, kb);
    assert box.order[n] == ka && forall m | 0 <= m < |box.order| && box.order[m] == kb :: m == n + 1;
  }
}
