/** The run's status as a statement about the evidence, and what cannot change it. */
module Outcome {
  import opened Text
  import opened Evidence
  import opened Evaluate
  import opened Decide
  import opened Soundness
  import opened Meaning

  function Run(e: Engine, specs: seq<Spec>, bundle: Bundle, ctx: Context, when: DecisionContext): Option<Decision> {
    DecideRunStatus(AssessAll(e, specs, bundle, ctx), when)
  }

  ghost predicate AllWitnessed(e: Engine, specs: seq<Spec>, bundle: Bundle, ctx: Context) {
    forall spec | spec in specs :: spec.mandatory ==> Witnessed(e, spec, bundle, ctx)
  }

  ghost predicate SomeRefuted(e: Engine, specs: seq<Spec>, bundle: Bundle, ctx: Context) {
    exists spec | spec in specs :: spec.mandatory && Refuted(e, spec, bundle, ctx)
  }

  ghost predicate RestMissing(e: Engine, specs: seq<Spec>, bundle: Bundle, ctx: Context) {
    forall spec | spec in specs ::
      spec.mandatory && !Witnessed(e, spec, bundle, ctx) ==> ConfirmedMissing(spec, bundle, ctx)
  }

  // ---- from results to rules, one aggregate at a time ----

  lemma {:induction false} ResultMeans(e: Engine, specs: seq<Spec>, bundle: Bundle, ctx: Context, results: seq<Assessment>, i: nat)
    requires results == AssessAll(e, specs, bundle, ctx) && i < |specs|
    ensures results[i] in results && specs[i] in specs && results[i].mandatory == specs[i].mandatory
    ensures results[i].status == Supported <==> Witnessed(e, specs[i], bundle, ctx)
    ensures results[i].status == Contradicted <==> Refuted(e, specs[i], bundle, ctx)
    ensures IsAuthoritativeAbsence(results[i].reason) <==> ConfirmedMissing(specs[i], bundle, ctx)
  {
    CandidateVerdict(e, specs[i], bundle, ctx);
  }

  lemma {:induction false} RequiredMean(e: Engine, specs: seq<Spec>, bundle: Bundle, ctx: Context, results: seq<Assessment>)
    requires results == AssessAll(e, specs, bundle, ctx)
    ensures SomeRequired(results) <==> SomeMandatory(specs)
  {
    if SomeRequired(results) {
      var i :| 0 <= i < |results| && results[i].mandatory;
      ResultMeans(e, specs, bundle, ctx, results, i);
    }
    if SomeMandatory(specs) {
      var i :| 0 <= i < |specs| && specs[i].mandatory;
      ResultMeans(e, specs, bundle, ctx, results, i);
    }
  }

  lemma {:induction false} ContradictedMean(e: Engine, specs: seq<Spec>, bundle: Bundle, ctx: Context, results: seq<Assessment>)
    requires results == AssessAll(e, specs, bundle, ctx)
    ensures RequiredContradicted(results) <==> SomeRefuted(e, specs, bundle, ctx)
  {
    if RequiredContradicted(results) {
      var i :| 0 <= i < |results| && results[i].mandatory && results[i].status == Contradicted;
      ResultMeans(e, specs, bundle, ctx, results, i);
    }
    if SomeRefuted(e, specs, bundle, ctx) {
      var i :| 0 <= i < |specs| && specs[i].mandatory && Refuted(e, specs[i], bundle, ctx);
      ResultMeans(e, specs, bundle, ctx, results, i);
    }
  }

  lemma {:induction false} SupportedMean(e: Engine, specs: seq<Spec>, bundle: Bundle, ctx: Context, results: seq<Assessment>)
    requires results == AssessAll(e, specs, bundle, ctx)
    ensures AllRequiredSupported(results) <==> AllWitnessed(e, specs, bundle, ctx)
  {
    if !AllRequiredSupported(results) {
      var i :| 0 <= i < |results| && results[i].mandatory && results[i].status != Supported;
      ResultMeans(e, specs, bundle, ctx, results, i);
    }
    if !AllWitnessed(e, specs, bundle, ctx) {
      var i :| 0 <= i < |specs| && specs[i].mandatory && !Witnessed(e, specs[i], bundle, ctx);
      ResultMeans(e, specs, bundle, ctx, results, i);
    }
  }

  lemma {:induction false} AbsentMean(e: Engine, specs: seq<Spec>, bundle: Bundle, ctx: Context, results: seq<Assessment>)
    requires results == AssessAll(e, specs, bundle, ctx)
    ensures OpenOnesAbsent(results) <==> RestMissing(e, specs, bundle, ctx)
  {
    if !OpenOnesAbsent(results) {
      var i :| 0 <= i < |results| && results[i].mandatory && results[i].status != Supported
               && !IsAuthoritativeAbsence(results[i].reason);
      ResultMeans(e, specs, bundle, ctx, results, i);
    }
    if !RestMissing(e, specs, bundle, ctx) {
      var i :| 0 <= i < |specs| && specs[i].mandatory && !Witnessed(e, specs[i], bundle, ctx)
               && !ConfirmedMissing(specs[i], bundle, ctx);
      ResultMeans(e, specs, bundle, ctx, results, i);
    }
  }

  /** The outcome of a run, exactly. VERIFIED means every required rule has independent evidence of its own;
      FAILED means one is refuted, or the deadline passed, access worked and every open one is confirmed missing. */
  lemma {:induction false} RunMeaning(e: Engine, specs: seq<Spec>, bundle: Bundle, ctx: Context, when: DecisionContext)
    ensures Run(e, specs, bundle, ctx, when).Some? <==> SomeMandatory(specs)
    ensures SomeMandatory(specs) ==>
      var status := Run(e, specs, bundle, ctx, when).value.status;
      && (status == Verified <==> AllWitnessed(e, specs, bundle, ctx))
      && (status == Failed <==>
          || SomeRefuted(e, specs, bundle, ctx)
          || (&& !AllWitnessed(e, specs, bundle, ctx) && RestMissing(e, specs, bundle, ctx)
              && when.workingAccess && when.now >= when.deadlineAt))
      && (status == RunPending <==>
          && !SomeRefuted(e, specs, bundle, ctx) && !AllWitnessed(e, specs, bundle, ctx)
          && when.now < when.deadlineAt && when.remaining > 0)
  {
    var results := AssessAll(e, specs, bundle, ctx);
    RequiredMean(e, specs, bundle, ctx, results);
    ContradictedMean(e, specs, bundle, ctx, results);
    SupportedMean(e, specs, bundle, ctx, results);
    AbsentMean(e, specs, bundle, ctx, results);
    DecisionTable(results, when);
  }

  /** Two bundles that agree rule by rule give the same run status. */
  lemma {:induction false} SameMeaningSameStatus(e: Engine, specs: seq<Spec>, a: Bundle, b: Bundle, ctx: Context, when: DecisionContext)
    requires forall spec | spec in specs ::
      && (Witnessed(e, spec, a, ctx) <==> Witnessed(e, spec, b, ctx))
      && (Refuted(e, spec, a, ctx) <==> Refuted(e, spec, b, ctx))
      && (ConfirmedMissing(spec, a, ctx) <==> ConfirmedMissing(spec, b, ctx))
    requires SomeMandatory(specs)
    ensures Run(e, specs, a, ctx, when).Some? && Run(e, specs, b, ctx, when).Some?
    ensures Run(e, specs, a, ctx, when).value.status == Run(e, specs, b, ctx, when).value.status
  {
    RunMeaning(e, specs, a, ctx, when);
    RunMeaning(e, specs, b, ctx, when);
    assert AllWitnessed(e, specs, a, ctx) <==> AllWitnessed(e, specs, b, ctx);
    assert SomeRefuted(e, specs, a, ctx) <==> SomeRefuted(e, specs, b, ctx);
    assert RestMissing(e, specs, a, ctx) <==> RestMissing(e, specs, b, ctx);
  }

  // ---- VERIFIED ----

  /** A run is VERIFIED exactly when there is a required rule and each of them has, in a field of a record or event of
      its own unambiguous source, in the connected account and not claimed by the customer, what this run asks for. */
  lemma {:induction false} VerifiedIsSound(e: Engine, specs: seq<Spec>, bundle: Bundle, ctx: Context, when: DecisionContext)
    ensures (Run(e, specs, bundle, ctx, when).Some? && Run(e, specs, bundle, ctx, when).value.status == Verified)
            <==> SomeMandatory(specs) && forall spec | spec in specs && spec.mandatory :: RuleSupported(e, spec, bundle, ctx)
  {
    RunMeaning(e, specs, bundle, ctx, when);
    forall spec
      ensures RuleSupported(e, spec, bundle, ctx) <==> Witnessed(e, spec, bundle, ctx)
    {
      RuleMeaning(e, spec, bundle, ctx);
    }
  }

  // ---- FAILED ----

  /** A run is FAILED exactly when the evidence counters a required rule, or, once the deadline passed with working
      access, the required rules that nothing supports are all open because their source said there is nothing there. */
  lemma {:induction false} FailedIsSound(e: Engine, specs: seq<Spec>, bundle: Bundle, ctx: Context, when: DecisionContext)
    requires SomeMandatory(specs)
    ensures Run(e, specs, bundle, ctx, when).Some?
    ensures Run(e, specs, bundle, ctx, when).value.status == Failed <==>
      || (exists spec | spec in specs :: spec.mandatory && RuleCountered(e, spec, bundle, ctx))
      || (&& when.workingAccess && when.now >= when.deadlineAt
          && (exists spec | spec in specs :: spec.mandatory && !RuleSupported(e, spec, bundle, ctx))
          && forall spec | spec in specs && spec.mandatory && !RuleSupported(e, spec, bundle, ctx) ::
               RuleMissing(spec, bundle, ctx))
  {
    RunMeaning(e, specs, bundle, ctx, when);
    forall spec
      ensures RuleSupported(e, spec, bundle, ctx) <==> Witnessed(e, spec, bundle, ctx)
      ensures RuleCountered(e, spec, bundle, ctx) <==> Refuted(e, spec, bundle, ctx)
      ensures RuleMissing(spec, bundle, ctx) <==> ConfirmedMissing(spec, bundle, ctx)
    {
      RuleMeaning(e, spec, bundle, ctx);
    }
  }

  /** No evidence and no "not found" from any source: never FAILED, whatever the clock and the access flag say. */
  lemma {:induction false} SilenceNeverFails(e: Engine, specs: seq<Spec>, bundle: Bundle, ctx: Context, when: DecisionContext)
    requires SomeMandatory(specs)
    requires bundle.crm.None? && bundle.emails == [] && forall g | g in bundle.gaps :: !g.code.NotFound?
    ensures Run(e, specs, bundle, ctx, when).Some?
    ensures Run(e, specs, bundle, ctx, when).value.status in {RunPending, Unverified}
  {
    RunMeaning(e, specs, bundle, ctx, when);
    var i :| 0 <= i < |specs| && specs[i].mandatory;
    assert specs[i] in specs;
    forall spec: Spec
      ensures !Witnessed(e, spec, bundle, ctx) && !Refuted(e, spec, bundle, ctx) && !ConfirmedMissing(spec, bundle, ctx)
    {
      assert forall k | 0 <= k < |bundle.gaps| :: bundle.gaps[k] in bundle.gaps;
    }
  }

  /** With the access flag as the scheduler computes it, an outage never fails a run: while any source could not be
      asked, FAILED means that the evidence refutes a required rule. */
  lemma {:induction false} OutageNeverFails(e: Engine, specs: seq<Spec>, bundle: Bundle, ctx: Context, when: DecisionContext)
    requires SomeMandatory(specs) && when.workingAccess == WorkingAccess(bundle.gaps)
    requires exists g | g in bundle.gaps :: g.code != NotFound
    ensures Run(e, specs, bundle, ctx, when).Some?
    ensures Run(e, specs, bundle, ctx, when).value.status == Failed <==> SomeRefuted(e, specs, bundle, ctx)
  {
    RunMeaning(e, specs, bundle, ctx, when);
  }

  /** What assuming access gives up, exactly: past the deadline, with a source that could not be asked and everything
      open confirmed missing, the run is FAILED where the computed flag leaves it UNVERIFIED. */
  lemma {:induction false} AssumedAccessFails(e: Engine, specs: seq<Spec>, bundle: Bundle, ctx: Context, when: DecisionContext)
    requires SomeMandatory(specs)
    ensures Run(e, specs, bundle, ctx, when.(workingAccess := true)).Some?
    ensures Run(e, specs, bundle, ctx, when.(workingAccess := WorkingAccess(bundle.gaps))).Some?
    ensures var assumed, computed := Run(e, specs, bundle, ctx, when.(workingAccess := true)).value.status,
                                     Run(e, specs, bundle, ctx, when.(workingAccess := WorkingAccess(bundle.gaps))).value.status;
      && (assumed != computed <==>
            && !WorkingAccess(bundle.gaps) && when.now >= when.deadlineAt && RestMissing(e, specs, bundle, ctx)
            && !AllWitnessed(e, specs, bundle, ctx) && !SomeRefuted(e, specs, bundle, ctx))
      && (assumed != computed ==> assumed == Failed && computed == Unverified)
  {
    RunMeaning(e, specs, bundle, ctx, when.(workingAccess := true));
    RunMeaning(e, specs, bundle, ctx, when.(workingAccess := WorkingAccess(bundle.gaps)));
  }

  // ---- order, repetition and late arrival of email events ----

  lemma {:induction false} ObservedBySet(spec: Spec, a: Bundle, b: Bundle)
    requires a.crm == b.crm && forall event | event in a.emails :: event in b.emails
    ensures forall c | Observed(spec, a, c) :: Observed(spec, b, c)
    ensures SomethingObserved(spec, a) ==> SomethingObserved(spec, b)
  {
    assert a.emails != [] ==> a.emails[0] in a.emails;
  }

  /** Reordering and redelivering email events never changes the run's status. */
  lemma {:induction false} EventOrderIsIrrelevant(e: Engine, specs: seq<Spec>, bundle: Bundle, emails: seq<Email>, ctx: Context,
                               when: DecisionContext)
    requires SomeMandatory(specs)
    requires forall event :: event in bundle.emails <==> event in emails
    ensures var other := bundle.(emails := emails);
      && Run(e, specs, bundle, ctx, when).Some? && Run(e, specs, other, ctx, when).Some?
      && Run(e, specs, bundle, ctx, when).value.status == Run(e, specs, other, ctx, when).value.status
  {
    var other := bundle.(emails := emails);
    forall spec | spec in specs
      ensures Witnessed(e, spec, bundle, ctx) <==> Witnessed(e, spec, other, ctx)
      ensures Refuted(e, spec, bundle, ctx) <==> Refuted(e, spec, other, ctx)
      ensures ConfirmedMissing(spec, bundle, ctx) <==> ConfirmedMissing(spec, other, ctx)
    {
      ObservedBySet(spec, bundle, other);
      ObservedBySet(spec, other, bundle);
      SameObservations(e, spec, bundle, other, ctx);
    }
    SameMeaningSameStatus(e, specs, bundle, other, ctx, when);
  }

  lemma {:induction false} SameObservations(e: Engine, spec: Spec, a: Bundle, b: Bundle, ctx: Context)
    requires a.gaps == b.gaps && forall c :: Observed(spec, a, c) <==> Observed(spec, b, c)
    requires SomethingObserved(spec, a) <==> SomethingObserved(spec, b)
    ensures Witnessed(e, spec, a, ctx) <==> Witnessed(e, spec, b, ctx)
    ensures Refuted(e, spec, a, ctx) <==> Refuted(e, spec, b, ctx)
    ensures ConfirmedMissing(spec, a, ctx) <==> ConfirmedMissing(spec, b, ctx)
  {
    assert Judgeable(spec, a, ctx) <==> Judgeable(spec, b, ctx);
    if Judgeable(spec, a, ctx) {
      assert forall c :: Eligible(spec, a, ctx, c) <==> Eligible(spec, b, ctx, c);
      assert forall c :: Witness(e, spec, a, ctx, c) <==> Witness(e, spec, b, ctx, c);
    }
  }

  lemma {:induction false} MoreEventsKeepWitness(e: Engine, spec: Spec, bundle: Bundle, more: seq<Email>, ctx: Context)
    requires Witnessed(e, spec, bundle, ctx)
    ensures Witnessed(e, spec, bundle.(emails := bundle.emails + more), ctx)
  {
    var longer := bundle.(emails := bundle.emails + more);
    ObservedBySet(spec, bundle, longer);
    var c :| Witness(e, spec, bundle, ctx, c);
    assert Judgeable(spec, longer, ctx) && Witness(e, spec, longer, ctx, c);
  }

  /** More email events never take support away from an assertion. */
  lemma {:induction false} MoreEventsKeepSupport(e: Engine, spec: Spec, bundle: Bundle, more: seq<Email>, ctx: Context)
    requires Assess(e, spec, bundle, ctx).status == Supported
    ensures Assess(e, spec, bundle.(emails := bundle.emails + more), ctx).status == Supported
  {
    var longer := bundle.(emails := bundle.emails + more);
    CandidateVerdict(e, spec, bundle, ctx);
    MoreEventsKeepWitness(e, spec, bundle, more, ctx);
    CandidateVerdict(e, spec, longer, ctx);
  }

  /** Nor from a run: it stays VERIFIED at any later moment, whatever else is known about access. */
  lemma {:induction false} MoreEventsKeepVerified(e: Engine, specs: seq<Spec>, bundle: Bundle, more: seq<Email>, ctx: Context,
                               before: DecisionContext, after: DecisionContext)
    requires Run(e, specs, bundle, ctx, before).Some?
    requires Run(e, specs, bundle, ctx, before).value.status == Verified
    ensures var longer := bundle.(emails := bundle.emails + more);
      && Run(e, specs, longer, ctx, after).Some?
      && Run(e, specs, longer, ctx, after).value.status == Verified
  {
    var longer := bundle.(emails := bundle.emails + more);
    RunMeaning(e, specs, bundle, ctx, before);
    RunMeaning(e, specs, longer, ctx, after);
    forall spec | Witnessed(e, spec, bundle, ctx)
      ensures Witnessed(e, spec, longer, ctx)
    {
      MoreEventsKeepWitness(e, spec, bundle, more, ctx);
    }
  }
}
