/** A decided run is an audit record: late evidence adds a revision, never rewrites one. */
module Transitions {
  import opened Text
  import opened Evidence
  import opened Evaluate
  import opened Decide
  import opened Outcome
  import opened Soundness

  datatype RunEvent =
    | ObservationRecorded | MandatorySupported | MandatoryContradicted | EvidenceInconclusive | LateEvidenceObserved
    | OtherEvent(name: string)

  predicate IsTerminal(status: RunStatus) {
    status == Verified || status == Failed || status == Unverified
  }

  /** The next state, or nothing where the source throws. */
  function NextRunState(current: RunStatus, event: RunEvent): Option<RunStatus> {
    if current == RunPending then
      match event
      case ObservationRecorded => Some(RunPending)
      case MandatorySupported => Some(Verified)
      case MandatoryContradicted => Some(Failed)
      case EvidenceInconclusive => Some(Unverified)
      case LateEvidenceObserved => None
      case OtherEvent(_) => None
    else if event == LateEvidenceObserved then Some(current)
    else None
  }

  /** The state after a whole run of events, or nothing as soon as one is illegal. */
  ghost function After(start: RunStatus, events: seq<RunEvent>): Option<RunStatus> {
    if events == [] then Some(start)
    else
      var before := After(start, events[..|events| - 1]);
      if before.None? then None else NextRunState(before.value, events[|events| - 1])
  }

  lemma {:induction false} AfterInParts(start: RunStatus, events: seq<RunEvent>, more: seq<RunEvent>, event: RunEvent)
    ensures After(start, []) == Some(start) && After(start, [event]) == NextRunState(start, event)
    ensures After(start, events + more) ==
      if After(start, events).None? then None else After(After(start, events).value, more)
    decreases |more|
  {
    assert [event][..0] == [];
    if more == [] {
      assert events + more == events;
    } else {
      var n := |more| - 1;
      AfterInParts(start, events, more[..n], event);
      assert (events + more)[..|events + more| - 1] == events + more[..n];
    }
  }

  /** Once decided, every legal continuation leaves the decision as it is and holds late evidence only. */
  lemma {:induction false} DecidedStays(start: RunStatus, events: seq<RunEvent>, n: nat)
    requires n <= |events| && After(start, events).Some?
    ensures After(start, events[..n]).Some?
    ensures var then_ := After(start, events[..n]).value;
      IsTerminal(then_) ==> After(start, events) == Some(then_)
                            && forall k | n <= k < |events| :: events[k] == LateEvidenceObserved
    decreases |events|
  {
    if n < |events| {
      var init := events[..|events| - 1];
      DecidedStays(start, init, n);
      assert init[..n] == events[..n];
      assert forall k | 0 <= k < |init| :: init[k] == events[k];
    } else {
      assert events[..n] == events;
    }
  }

  /** The event that decides a pending run, and what it decides. */
  function Decides(event: RunEvent): Option<RunStatus> {
    match event
    case MandatorySupported => Some(Verified)
    case MandatoryContradicted => Some(Failed)
    case EvidenceInconclusive => Some(Unverified)
    case _ => None
  }

  ghost predicate DecidedAt(events: seq<RunEvent>, k: nat, status: RunStatus) {
    && k < |events| && Decides(events[k]) == Some(status)
    && (forall i | 0 <= i < k :: events[i] == ObservationRecorded)
    && (forall i | k < i < |events| :: events[i] == LateEvidenceObserved)
  }

  lemma {:induction false} PendingTraces(events: seq<RunEvent>)
    ensures After(RunPending, events) == Some(RunPending) <==> forall i | 0 <= i < |events| :: events[i] == ObservationRecorded
    decreases |events|
  {
    if events != [] {
      var init := events[..|events| - 1];
      PendingTraces(init);
      assert forall i | 0 <= i < |init| :: events[i] == init[i];
      assert events[|events| - 1] == ObservationRecorded || After(RunPending, events) != Some(RunPending);
    }
  }

  /** A run ends in a status exactly by observations, then the one event that decides it, then late evidence only. */
  lemma {:induction false} DecidedTraces(events: seq<RunEvent>, status: RunStatus)
    requires IsTerminal(status)
    ensures After(RunPending, events) == Some(status) <==> exists k: nat :: DecidedAt(events, k, status)
    decreases |events|
  {
    if events != [] {
      var n := |events| - 1;
      var init := events[..n];
      PendingTraces(init);
      DecidedTraces(init, status);
      assert forall i | 0 <= i < n :: init[i] == events[i];
      if After(RunPending, events) == Some(status) {
        if After(RunPending, init) == Some(RunPending) {
          assert DecidedAt(events, n, status);
        } else {
          var k: nat :| DecidedAt(init, k, status);
          assert DecidedAt(events, k, status);
        }
      }
      if k: nat :| DecidedAt(events, k, status) {
        if k < n {
          assert DecidedAt(init, k, status);
        }
      }
    }
  }

  // ---- revisions ----

  datatype Revision = Revision(runId: string, revision: int, status: RunStatus, why: Why, results: seq<Assessment>,
                               rulesRef: string, rulesSchemaVersion: int, occurredAt: int, deadlineAt: int,
                               observedAt: int, decidedAt: int, lateObservation: bool, lateCompletion: bool,
                               supersedes: Option<int>)

  /** What arrived later: new results, the access flag (absent reads as working) and the clock. */
  datatype Late = Late(results: seq<Assessment>, workingAccess: Option<bool>, now: int)

  datatype LateOutcome = NotDecided | NoMandatory | Unchanged | Superseded(next: Revision)

  /** Some result's own provider timestamp is after the deadline. */
  predicate DetectLateCompletion(parse: string -> Option<int>, results: seq<Assessment>, deadlineAt: int) {
    exists r | r in results ::
      && r.observedAt.Some? && parse(r.observedAt.value).Some? && parse(r.observedAt.value).value > deadlineAt
  }

  /** The last result with this rule id, as a Map built from the list would answer. */
  function Lookup(results: seq<Assessment>, id: string): Option<Assessment> {
    if results == [] then None
    else if results[|results| - 1].ruleId == id then Some(results[|results| - 1])
    else Lookup(results[..|results| - 1], id)
  }

  predicate SameVerdict(a: Assessment, b: Assessment) {
    a.status == b.status && a.reason == b.reason
  }

  predicate SameVerdicts(a: seq<Assessment>, b: seq<Assessment>) {
    && |a| == |b|
    && forall r | r in b :: Lookup(a, r.ruleId).Some? && SameVerdict(Lookup(a, r.ruleId).value, r)
  }

  function LateContext(run: Revision, late: Late): DecisionContext {
    DecisionContext(run.deadlineAt, late.now, if late.workingAccess.Some? then late.workingAccess.value else true, 0)
  }

  function Supersede(parse: string -> Option<int>, run: Revision, late: Late, decision: Decision): Revision {
    Revision(run.runId, run.revision + 1, decision.status, decision.why, late.results, run.rulesRef,
             run.rulesSchemaVersion, run.occurredAt, run.deadlineAt, late.now, late.now, late.now > run.deadlineAt,
             DetectLateCompletion(parse, late.results, run.deadlineAt), Some(run.revision))
  }

  function ApplyLateEvidence(parse: string -> Option<int>, run: Revision, late: Late): LateOutcome {
    if !IsTerminal(run.status) || NextRunState(run.status, LateEvidenceObserved).None? then NotDecided
    else
      var decision := DecideRunStatus(late.results, LateContext(run, late));
      if decision.None? then NoMandatory
      else if decision.value.status == run.status && SameVerdicts(run.results, late.results) then Unchanged
      else Superseded(Supersede(parse, run, late, decision.value))
  }

  // ---- comparing verdicts ----

  lemma {:induction false} LookupFinds(results: seq<Assessment>, id: string)
    ensures Lookup(results, id).Some? ==> Lookup(results, id).value in results && Lookup(results, id).value.ruleId == id
    ensures Lookup(results, id).None? <==> forall r | r in results :: r.ruleId != id
  {
    if results != [] {
      var init := results[..|results| - 1];
      LookupFinds(init, id);
      assert results == init + [results[|results| - 1]];
    }
  }

  /** Results that share a rule id share its verdict; distinct rule ids make this hold. */
  ghost predicate Consistent(results: seq<Assessment>) {
    forall r, q | r in results && q in results && r.ruleId == q.ruleId :: r.status == q.status && r.reason == q.reason
  }

  ghost predicate DistinctIds(results: seq<Assessment>) {
    forall i, j | 0 <= i < j < |results| :: results[i].ruleId != results[j].ruleId
  }

  /** The comparison is reflexive exactly on consistent results. */
  lemma {:induction false} SameAsItself(results: seq<Assessment>)
    ensures SameVerdicts(results, results) <==> Consistent(results)
  {
    forall r | r in results
      ensures Lookup(results, r.ruleId).Some? && Lookup(results, r.ruleId).value in results
      ensures Lookup(results, r.ruleId).value.ruleId == r.ruleId
    {
      LookupFinds(results, r.ruleId);
    }
  }

  ghost function Ids(results: seq<Assessment>): set<string> {
    set r | r in results :: r.ruleId
  }

  lemma {:induction false} IdCount(results: seq<Assessment>)
    requires DistinctIds(results)
    ensures |Ids(results)| == |results|
  {
    if results != [] {
      var init, last := results[..|results| - 1], results[|results| - 1];
      IdCount(init);
      assert results == init + [last];
      assert Ids(results) == Ids(init) + {last.ruleId};
      assert last.ruleId !in Ids(init);
    }
  }

  ghost predicate Agrees(a: seq<Assessment>, b: seq<Assessment>) {
    forall r | r in b :: exists q | q in a :: q.ruleId == r.ruleId && q.status == r.status && q.reason == r.reason
  }

  lemma {:induction false} SubsetOfSameSize(a: set<string>, b: set<string>)
    requires b <= a && |a| == |b|
    ensures a == b
  {
    assert a == b + (a - b);
    assert |a| == |b| + |a - b|;
  }

  lemma {:induction false} SameVerdictsAgree(a: seq<Assessment>, b: seq<Assessment>)
    requires SameVerdicts(a, b)
    ensures Agrees(a, b) && Ids(b) <= Ids(a)
  {
    forall r | r in b
      ensures exists q | q in a :: q.ruleId == r.ruleId && SameVerdict(q, r)
    {
      LookupFinds(a, r.ruleId);
    }
  }

  lemma {:induction false} AgreeIsSameVerdicts(a: seq<Assessment>, b: seq<Assessment>)
    requires DistinctIds(a) && |a| == |b| && Agrees(a, b)
    ensures SameVerdicts(a, b)
  {
    forall r | r in b
      ensures Lookup(a, r.ruleId).Some? && SameVerdict(Lookup(a, r.ruleId).value, r)
    {
      var q :| q in a && q.ruleId == r.ruleId && SameVerdict(q, r);
      LookupFinds(a, r.ruleId);
      OneWithId(a, q, Lookup(a, r.ruleId).value);
    }
  }

  lemma {:induction false} AgreementIsMutual(a: seq<Assessment>, b: seq<Assessment>)
    requires DistinctIds(a) && Agrees(a, b) && Ids(b) == Ids(a)
    ensures Agrees(b, a)
  {
    forall r | r in a
      ensures exists q | q in b :: q.ruleId == r.ruleId && SameVerdict(q, r)
    {
      assert r.ruleId in Ids(b);
      var q :| q in b && q.ruleId == r.ruleId;
      var p :| p in a && p.ruleId == q.ruleId && SameVerdict(p, q);
      OneWithId(a, r, p);
    }
  }

  /** With distinct rule ids the comparison is exact: the same rules with the same verdicts, both ways. */
  lemma {:induction false} SameVerdictsExactly(a: seq<Assessment>, b: seq<Assessment>)
    requires DistinctIds(a) && DistinctIds(b)
    ensures SameVerdicts(a, b) <==> |a| == |b| && Agrees(a, b) && Agrees(b, a)
  {
    if SameVerdicts(a, b) {
      SameVerdictsAgree(a, b);
      IdCount(a);
      IdCount(b);
      SubsetOfSameSize(Ids(a), Ids(b));
      AgreementIsMutual(a, b);
    } else if |a| == |b| && Agrees(a, b) {
      AgreeIsSameVerdicts(a, b);
    }
  }

  lemma {:induction false} OneWithId(results: seq<Assessment>, r: Assessment, q: Assessment)
    requires DistinctIds(results) && r in results && q in results && r.ruleId == q.ruleId
    ensures r == q
  {
    var i :| 0 <= i < |results| && results[i] == r;
    var j :| 0 <= j < |results| && results[j] == q;
    assert !(i < j) && !(j < i);
  }

  // ---- chains of revisions ----

  /** Every revision there is after the inputs arrived one by one; a refused input adds none. */
  ghost function Chain(parse: string -> Option<int>, first: Revision, inputs: seq<Late>): (chain: seq<Revision>)
    ensures chain != []
  {
    if inputs == [] then [first]
    else
      var chain := Chain(parse, first, inputs[..|inputs| - 1]);
      var outcome := ApplyLateEvidence(parse, chain[|chain| - 1], inputs[|inputs| - 1]);
      if outcome.Superseded? then chain + [outcome.next] else chain
  }

  /** A chain starts as the first revision alone, and each input adds what it makes of the last one, if anything. */
  lemma {:induction false} ChainStepByStep(parse: string -> Option<int>, first: Revision, inputs: seq<Late>, late: Late)
    ensures Chain(parse, first, []) == [first]
    ensures var before := Chain(parse, first, inputs);
      var outcome := ApplyLateEvidence(parse, before[|before| - 1], late);
      Chain(parse, first, inputs + [late]) == if outcome.Superseded? then before + [outcome.next] else before
  {
    assert (inputs + [late])[..|inputs|] == inputs;
  }

  /** next is a new revision right after prior, about the same run under the same rules and deadline. */
  ghost predicate Follows(prior: Revision, next: Revision) {
    && next.revision == prior.revision + 1 && next.supersedes == Some(prior.revision)
    && next.runId == prior.runId && next.rulesRef == prior.rulesRef
    && next.rulesSchemaVersion == prior.rulesSchemaVersion
    && next.occurredAt == prior.occurredAt && next.deadlineAt == prior.deadlineAt
    && IsTerminal(next.status)
    && (next.status != prior.status || !SameVerdicts(prior.results, next.results))
    && next.lateObservation == (next.observedAt > next.deadlineAt)
  }

  /** The text is a timestamp later than the instant. */
  ghost predicate IsAfter(parse: string -> Option<int>, at: string, instant: int) {
    exists ms :: parse(at) == Some(ms) && ms > instant
  }

  /** The table is asked as for a run whose observation budget is spent, with access taken as working unless the input
      says otherwise. */
  ghost predicate AskedLate(run: Revision, late: Late, ctx: DecisionContext) {
    && ctx.deadlineAt == run.deadlineAt && ctx.now == late.now && ctx.remaining == 0
    && (ctx.workingAccess <==> late.workingAccess != Some(false))
  }

  /** Late evidence is refused on an undecided run and without a required result; it changes nothing when the table
      answers as before and the verdicts are the same; else it makes a revision. */
  lemma {:induction false} LateOutcomeExactly(parse: string -> Option<int>, run: Revision, late: Late, ctx: DecisionContext)
    requires AskedLate(run, late, ctx)
    ensures var outcome, decision := ApplyLateEvidence(parse, run, late), DecideRunStatus(late.results, ctx);
      && (outcome == NotDecided <==> run.status == RunPending)
      && (outcome == NoMandatory <==> run.status != RunPending && forall r | r in late.results :: !r.mandatory)
      && (outcome == Unchanged <==>
            && run.status != RunPending && decision.Some?
            && decision.value.status == run.status && SameVerdicts(run.results, late.results))
      && (outcome.Superseded? ==> decision == Some(Decision(outcome.next.status, outcome.next.why)))
  {
    assert ctx == LateContext(run, late);
    DecisionTable(late.results, ctx);
  }

  /** A revision is about the same run under the same rules, numbered one up. It records when it was made, whether that is
      after the deadline, and whether some result's own provider timestamp is. */
  lemma {:induction false} LateEvidenceFollows(parse: string -> Option<int>, run: Revision, late: Late)
    ensures var outcome := ApplyLateEvidence(parse, run, late);
      && (outcome.NotDecided? <==> run.status == RunPending)
      && (outcome.Superseded? ==>
            var next := outcome.next;
            && Follows(run, next) && next.results == late.results && next.observedAt == next.decidedAt == late.now
            && DecideRunStatus(late.results, LateContext(run, late)) == Some(Decision(next.status, next.why))
            && next.lateObservation == (late.now > run.deadlineAt)
            && (next.lateCompletion <==>
                  exists r, at | r in late.results && r.observedAt == Some(at) :: IsAfter(parse, at, run.deadlineAt)))
  {
    assert forall r | r in late.results && r.observedAt.Some? ::
      IsAfter(parse, r.observedAt.value, run.deadlineAt) <==>
        parse(r.observedAt.value).Some? && parse(r.observedAt.value).value > run.deadlineAt;
    DecisionTable(late.results, LateContext(run, late));
  }

  lemma {:induction false} ChainIsAppendOnly(parse: string -> Option<int>, first: Revision, inputs: seq<Late>, n: nat)
    requires n <= |inputs|
    ensures Chain(parse, first, inputs[..n]) <= Chain(parse, first, inputs)
    decreases |inputs|
  {
    if n < |inputs| {
      var init := inputs[..|inputs| - 1];
      ChainIsAppendOnly(parse, first, init, n);
      assert init[..n] == inputs[..n];
    } else {
      assert inputs[..n] == inputs;
    }
  }

  /** Every revision follows the one before it and none is pending. */
  ghost predicate AuditTrail(chain: seq<Revision>) {
    && (forall i | 0 < i < |chain| :: Follows(chain[i - 1], chain[i]))
    && (forall i | 0 <= i < |chain| :: IsTerminal(chain[i].status))
  }

  lemma {:induction false} TrailGrows(chain: seq<Revision>, next: Revision)
    requires chain != [] && AuditTrail(chain) && Follows(chain[|chain| - 1], next)
    ensures AuditTrail(chain + [next])
  {
  }

  /** From a decided revision, whatever arrives, in any number and order. */
  lemma {:induction false} ChainIsAnAuditTrail(parse: string -> Option<int>, first: Revision, inputs: seq<Late>)
    requires IsTerminal(first.status)
    ensures Chain(parse, first, inputs)[0] == first && AuditTrail(Chain(parse, first, inputs))
  {
    if inputs != [] {
      var init := inputs[..|inputs| - 1];
      ChainIsAnAuditTrail(parse, first, init);
      var chain := Chain(parse, first, init);
      LateEvidenceFollows(parse, chain[|chain| - 1], inputs[|inputs| - 1]);
      var outcome := ApplyLateEvidence(parse, chain[|chain| - 1], inputs[|inputs| - 1]);
      if outcome.Superseded? {
        TrailGrows(chain, outcome.next);
      }
    }
  }

  /** Numbers count up by one and the run, the rules and the deadline are those of the first revision. */
  lemma {:induction false} ChainKeepsIdentity(parse: string -> Option<int>, first: Revision, inputs: seq<Late>, i: nat)
    requires IsTerminal(first.status) && i < |Chain(parse, first, inputs)|
    ensures var r := Chain(parse, first, inputs)[i];
      && r.revision == first.revision + i && r.runId == first.runId && r.rulesRef == first.rulesRef
      && r.rulesSchemaVersion == first.rulesSchemaVersion
      && r.occurredAt == first.occurredAt && r.deadlineAt == first.deadlineAt
    decreases i
  {
    ChainIsAnAuditTrail(parse, first, inputs);
    if i > 0 {
      ChainKeepsIdentity(parse, first, inputs, i - 1);
      assert Follows(Chain(parse, first, inputs)[i - 1], Chain(parse, first, inputs)[i]);
    }
  }

  // ---- reapplying ----

  predicate SameSide(run: Revision, a: Late, b: Late) {
    && a.results == b.results
    && LateContext(run, a).workingAccess == LateContext(run, b).workingAccess
    && (a.now < run.deadlineAt <==> b.now < run.deadlineAt)
  }

  /** The same results again, with the same access and on the same side of the deadline, add a revision
      exactly when two of them share a rule id and disagree; a rule set with distinct ids rules that out. */
  lemma {:induction false} ReapplyingAddsNothing(parse: string -> Option<int>, run: Revision, late: Late, again: Late)
    requires SameSide(run, late, again)
    ensures var outcome := ApplyLateEvidence(parse, run, late);
      && (outcome.Unchanged? ==> ApplyLateEvidence(parse, run, again).Unchanged?)
      && (outcome.Superseded? ==>
            (ApplyLateEvidence(parse, outcome.next, again).Unchanged? <==> Consistent(late.results)))
  {
    SameAsItself(late.results);
    LateEvidenceFollows(parse, run, late);
  }

  lemma {:induction false} DistinctIsConsistent(results: seq<Assessment>)
    requires DistinctIds(results)
    ensures Consistent(results)
  {
    forall r, q | r in results && q in results && r.ruleId == q.ruleId
      ensures SameVerdict(r, q)
    {
      OneWithId(results, r, q);
    }
  }

  /** Results of an evaluable rule set have distinct ids, so reapplying them adds nothing. */
  lemma {:induction false} EvaluatedIsDistinct(e: Engine, specs: seq<Spec>, bundle: Bundle, ctx: Context)
    requires Evaluable(specs)
    ensures DistinctIds(AssessAll(e, specs, bundle, ctx)) && Consistent(AssessAll(e, specs, bundle, ctx))
  {
    var results := AssessAll(e, specs, bundle, ctx);
    forall i | 0 <= i < |specs|
      ensures results[i].ruleId == specs[i].ruleId
    {
      KeepsIdentity(e, specs[i], bundle, ctx);
    }
    DistinctIsConsistent(results);
  }

  // ---- end to end ----

  /** A run verified on a bundle is never moved to another status by more email events, whenever they arrive
      and whether or not the sources answered. */
  lemma {:induction false} VerifiedSurvivesMoreEvents(e: Engine, specs: seq<Spec>, bundle: Bundle, more: seq<Email>, ctx: Context,
                                   when: DecisionContext, run: Revision, workingAccess: Option<bool>, now: int)
    requires Run(e, specs, bundle, ctx, when).Some?
    requires Run(e, specs, bundle, ctx, when).value.status == Verified
    requires run.status == Verified && run.results == AssessAll(e, specs, bundle, ctx)
    ensures var longer := bundle.(emails := bundle.emails + more);
      var outcome := ApplyLateEvidence(e.parse, run, Late(AssessAll(e, specs, longer, ctx), workingAccess, now));
      outcome.Unchanged? || (outcome.Superseded? && outcome.next.status == Verified)
  {
    var longer := bundle.(emails := bundle.emails + more);
    var late := Late(AssessAll(e, specs, longer, ctx), workingAccess, now);
    MoreEventsKeepVerified(e, specs, bundle, more, ctx, when, LateContext(run, late));
  }

  /** Nor by any number of late arrivals, each with some more email events: the whole chain is verified. */
  lemma {:induction false} VerifiedSurvivesEveryArrival(e: Engine, specs: seq<Spec>, bundle: Bundle, ctx: Context, when: DecisionContext,
                                                        first: Revision, inputs: seq<Late>, more: seq<seq<Email>>)
    requires Run(e, specs, bundle, ctx, when).Some? && Run(e, specs, bundle, ctx, when).value.status == Verified
    requires first.status == Verified && |more| == |inputs|
    requires forall i | 0 <= i < |inputs| ::
               inputs[i].results == AssessAll(e, specs, bundle.(emails := bundle.emails + more[i]), ctx)
    ensures forall r | r in Chain(e.parse, first, inputs) :: r.status == Verified
  {
    if inputs != [] {
      var n := |inputs| - 1;
      VerifiedSurvivesEveryArrival(e, specs, bundle, ctx, when, first, inputs[..n], more[..n]);
      var chain := Chain(e.parse, first, inputs[..n]);
      var last := chain[|chain| - 1];
      LateEvidenceFollows(e.parse, last, inputs[n]);
      MoreEventsKeepVerified(e, specs, bundle, more[n], ctx, when, LateContext(last, inputs[n]));
    }
  }
}
