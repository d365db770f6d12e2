/** From assertion results to the run's status: the aggregate decision table, with no majority vote. */
module Decide {
  import opened Text
  import opened Lists
  import opened Evidence
  import opened Evaluate

  // ---- which rule sets may be evaluated at all ----

  datatype RulesError = NoChecks | TooManyChecks | DuplicateRule | NoMandatoryCheck

  predicate DistinctRules(specs: seq<Spec>) {
    forall i, j | 0 <= i < j < |specs| :: specs[i].ruleId != specs[j].ruleId
  }

  predicate SomeMandatory(specs: seq<Spec>) {
    exists i | 0 <= i < |specs| :: specs[i].mandatory
  }

  predicate Evaluable(specs: seq<Spec>) {
    0 < |specs| <= MAX_ASSERTIONS && DistinctRules(specs) && SomeMandatory(specs)
  }

  method AssertEvaluableRules(specs: seq<Spec>) returns (problem: Option<RulesError>)
    ensures problem.None? <==> Evaluable(specs)
    ensures problem == Some(NoChecks) <==> specs == []
    ensures problem == Some(TooManyChecks) <==> |specs| > 10
    ensures problem == Some(DuplicateRule) <==> 0 < |specs| <= 10 && !DistinctRules(specs)
  {
    if specs == [] { return Some(NoChecks); }
    if |specs| > MAX_ASSERTIONS { return Some(TooManyChecks); }
    var seen: set<string> := {};
    for i := 0 to |specs|
      invariant DistinctRules(specs[..i])
      invariant forall id :: id in seen <==> exists k | 0 <= k < i :: specs[k].ruleId == id
    {
      if specs[i].ruleId in seen { return Some(DuplicateRule); }
      seen := seen + {specs[i].ruleId};
    }
    assert specs[..|specs|] == specs;
    if !SomeMandatory(specs) { return Some(NoMandatoryCheck); }
    problem := None;
  }

  function AssessAll(e: Engine, specs: seq<Spec>, bundle: Bundle, ctx: Context): (r: seq<Assessment>)
    ensures |r| == |specs|
  {
    seq(|specs|, i requires 0 <= i < |specs| => Assess(e, specs[i], bundle, ctx))
  }

  method EvaluateAssertions(e: Engine, specs: seq<Spec>, bundle: Bundle, ctx: Context)
    returns (r: Result<seq<Assessment>, RulesError>)
    ensures r.Ok? <==> Evaluable(specs)
    ensures r.Ok? ==> r.value == AssessAll(e, specs, bundle, ctx)
  {
    var problem := AssertEvaluableRules(specs);
    if problem.Some? { return Err(problem.value); }
    var results: seq<Assessment> := [];
    for i := 0 to |specs|
      invariant results == AssessAll(e, specs, bundle, ctx)[..i]
    {
      var one := EvaluateOne(e, specs[i], bundle, ctx);
      results := results + [one];
    }
    r := Ok(results);
  }

  // ---- the decision table ----

  /** Instants in milliseconds. */
  datatype DecisionContext = DecisionContext(deadlineAt: int, now: int, workingAccess: bool, remaining: int)

  /** How the scheduler computes the access flag: every gap is an answer, that there is nothing there. */
  predicate WorkingAccess(gaps: seq<Gap>) {
    forall g | g in gaps :: g.code == NotFound
  }

  /** Access is taken to work exactly when each report, if any, says that there is nothing there. */
  lemma {:induction false} AccessWorksExactly(gaps: seq<Gap>)
    ensures WorkingAccess(gaps) <==> !exists i | 0 <= i < |gaps| :: !gaps[i].code.NotFound?
  {
    assert forall g | g in gaps :: exists i | 0 <= i < |gaps| :: gaps[i] == g;
  }

  datatype Why =
    | AllSupported | SomeContradicted | ConfirmedAbsence | WindowOpen | WaitingForAccess
    | NoAccess | BudgetSpent | Incomplete

  datatype Decision = Decision(status: RunStatus, why: Why)

  predicate IsAuthoritativeAbsence(reason: Reason) {
    reason == RecordNotFound || reason == EventNotObserved
  }

  predicate Unresolved(status: AssertionStatus) {
    status == Unknown || status == Pending
  }

  /** Nothing when no result is mandatory: the source throws rather than decide. */
  function DecideRunStatus(results: seq<Assessment>, ctx: DecisionContext): Option<Decision> {
    var mandatory := Filter(results, (r: Assessment) => r.mandatory);
    if mandatory == [] then None
    else if exists r | r in mandatory :: r.status == Contradicted then Some(Decision(Failed, SomeContradicted))
    else if forall r | r in mandatory :: r.status == Supported then Some(Decision(Verified, AllSupported))
    else
      var unresolved := Filter(mandatory, (r: Assessment) => Unresolved(r.status));
      var beforeDeadline := ctx.now < ctx.deadlineAt;
      if beforeDeadline && ctx.remaining > 0 then
        Some(Decision(RunPending, if ctx.workingAccess then WindowOpen else WaitingForAccess))
      else if !ctx.workingAccess then Some(Decision(Unverified, NoAccess))
      else if beforeDeadline then Some(Decision(Unverified, BudgetSpent))
      else if unresolved != [] && forall r | r in unresolved :: IsAuthoritativeAbsence(r.reason) then
        Some(Decision(Failed, ConfirmedAbsence))
      else Some(Decision(Unverified, Incomplete))
  }

  ghost predicate SomeRequired(results: seq<Assessment>) {
    exists r | r in results :: r.mandatory
  }

  ghost predicate RequiredContradicted(results: seq<Assessment>) {
    exists r | r in results :: r.mandatory && r.status == Contradicted
  }

  ghost predicate AllRequiredSupported(results: seq<Assessment>) {
    forall r | r in results :: r.mandatory ==> r.status == Supported
  }

  ghost predicate OpenOnesAbsent(results: seq<Assessment>) {
    forall r | r in results :: r.mandatory && r.status != Supported ==> IsAuthoritativeAbsence(r.reason)
  }

  lemma {:induction false} RequiredOnes(results: seq<Assessment>, mandatory: seq<Assessment>)
    requires mandatory == Filter(results, (r: Assessment) => r.mandatory)
    ensures mandatory != [] <==> SomeRequired(results)
    ensures (exists r | r in mandatory :: r.status == Contradicted) <==> RequiredContradicted(results)
    ensures (forall r | r in mandatory :: r.status == Supported) <==> AllRequiredSupported(results)
    ensures (forall r | r in mandatory && r.status != Supported :: IsAuthoritativeAbsence(r.reason))
            <==> OpenOnesAbsent(results)
  {
    FilterKeeps(results, (r: Assessment) => r.mandatory);
    assert mandatory != [] ==> mandatory[0] in mandatory;
    assert forall r :: r in mandatory <==> r in results && r.mandatory;
  }

  lemma {:induction false} OpenOnes(mandatory: seq<Assessment>, unresolved: seq<Assessment>)
    requires unresolved == Filter(mandatory, (r: Assessment) => Unresolved(r.status))
    requires !exists r | r in mandatory :: r.status == Contradicted
    ensures unresolved == [] <==> forall r | r in mandatory :: r.status == Supported
    ensures (forall r | r in unresolved :: IsAuthoritativeAbsence(r.reason))
            <==> forall r | r in mandatory && r.status != Supported :: IsAuthoritativeAbsence(r.reason)
  {
    FilterKeeps(mandatory, (r: Assessment) => Unresolved(r.status));
    assert unresolved != [] ==> unresolved[0] in unresolved;
    assert forall r :: r in unresolved <==> r in mandatory && Unresolved(r.status);
    assert forall r | r in mandatory :: r.status == Supported || Unresolved(r.status);
  }

  /** Why, exactly. Inside the window with budget left, whether access works; past it or with the budget spent, first
      whether access works, then whether the window is still open, then whether every open result is confirmed absent. */
  lemma {:induction false} DecisionReasons(results: seq<Assessment>, ctx: DecisionContext)
    requires SomeRequired(results)
    ensures DecideRunStatus(results, ctx).Some?
    ensures var why := DecideRunStatus(results, ctx).value.why;
      var contradicted, supported, absent := RequiredContradicted(results), AllRequiredSupported(results), OpenOnesAbsent(results);
      var open := !contradicted && !supported;
      var early := ctx.now < ctx.deadlineAt;
      var over := open && (!early || ctx.remaining <= 0);
      && (why == SomeContradicted <==> contradicted)
      && (why == AllSupported <==> !contradicted && supported)
      && (why == WindowOpen <==> open && !over && ctx.workingAccess)
      && (why == WaitingForAccess <==> open && !over && !ctx.workingAccess)
      && (why == NoAccess <==> over && !ctx.workingAccess)
      && (why == BudgetSpent <==> over && ctx.workingAccess && early)
      && (why == ConfirmedAbsence <==> over && ctx.workingAccess && !early && absent)
      && (why == Incomplete <==> over && ctx.workingAccess && !early && !absent)
  {
    var mandatory := Filter(results, (r: Assessment) => r.mandatory);
    RequiredOnes(results, mandatory);
    if !exists r | r in mandatory :: r.status == Contradicted {
      OpenOnes(mandatory, Filter(mandatory, (r: Assessment) => Unresolved(r.status)));
    }
  }

  /** Each reason goes with one status. */
  lemma {:induction false} ReasonsFitStatuses(results: seq<Assessment>, ctx: DecisionContext)
    requires DecideRunStatus(results, ctx).Some?
    ensures var d := DecideRunStatus(results, ctx).value;
      && (d.status == Verified <==> d.why == AllSupported)
      && (d.status == Failed <==> d.why in {SomeContradicted, ConfirmedAbsence})
      && (d.status == RunPending <==> d.why in {WindowOpen, WaitingForAccess})
      && (d.status == Unverified <==> d.why in {NoAccess, BudgetSpent, Incomplete})
  {
  }

  /** The table, over the required results alone. FAILED has exactly two causes; an outage or a spent
      budget is neither; an optional result is never consulted. */
  lemma {:induction false} DecisionTable(results: seq<Assessment>, ctx: DecisionContext)
    ensures DecideRunStatus(results, ctx).Some? <==> SomeRequired(results)
    ensures DecideRunStatus(results, ctx).Some? ==>
      var d := DecideRunStatus(results, ctx).value;
      && (d.status == Verified <==> AllRequiredSupported(results))
      && (d.status == Failed <==>
          || RequiredContradicted(results)
          || (&& !AllRequiredSupported(results) && OpenOnesAbsent(results)
              && ctx.workingAccess && ctx.now >= ctx.deadlineAt))
      && (d.status == RunPending <==>
          && !RequiredContradicted(results) && !AllRequiredSupported(results)
          && ctx.now < ctx.deadlineAt && ctx.remaining > 0)
  {
    var mandatory := Filter(results, (r: Assessment) => r.mandatory);
    RequiredOnes(results, mandatory);
    if !exists r | r in mandatory :: r.status == Contradicted {
      OpenOnes(mandatory, Filter(mandatory, (r: Assessment) => Unresolved(r.status)));
    }
  }
}
