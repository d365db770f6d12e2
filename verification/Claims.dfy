/** What a customer's own claims can and cannot change about a run's outcome. */
module Claims {
  import opened Text
  import opened Lists
  import opened Evidence
  import opened Evaluate
  import opened Decide
  import opened Soundness
  import opened Outcome

  /** The bundle without anything the customer said about itself. */
  function WithoutClaims(bundle: Bundle): Bundle {
    bundle.(crm := if bundle.crm.Some? && bundle.crm.value.origin == CustomerClaim then None else bundle.crm,
            emails := Filter(bundle.emails, (event: Email) => event.origin != CustomerClaim))
  }

  /** Something other than a claim was observed. */
  ghost predicate IndependentlyObserved(spec: Spec, bundle: Bundle) {
    exists c :: Observed(spec, bundle, c) && c.origin != CustomerClaim
  }

  ghost predicate IndependentsForeign(spec: Spec, bundle: Bundle, ctx: Context) {
    forall c | Observed(spec, bundle, c) && c.origin != CustomerClaim :: !OwnAccount(spec, ctx, c)
  }

  /** The first report about the source is that there is nothing there. */
  ghost predicate ReportedMissing(source: Source, gaps: seq<Gap>) {
    exists i | 0 <= i < |gaps| ::
      gaps[i].source == source && gaps[i].code == NotFound && forall j | 0 <= j < i :: gaps[j].source != source
  }

  /** Only claims were observed, all of them in other accounts. */
  ghost predicate ClaimsRefute(spec: Spec, bundle: Bundle, ctx: Context) {
    && Judgeable(spec, bundle, ctx) && SomethingObserved(spec, bundle)
    && !IndependentlyObserved(spec, bundle) && AllForeign(spec, bundle, ctx)
  }

  /** Everything that is not a claim is in other accounts, and a claim is in the connected one. */
  ghost predicate ClaimsShield(spec: Spec, bundle: Bundle, ctx: Context) {
    && Judgeable(spec, bundle, ctx) && IndependentlyObserved(spec, bundle)
    && IndependentsForeign(spec, bundle, ctx) && !AllForeign(spec, bundle, ctx)
  }

  /** Only claims were observed, where the source reports that there is nothing. */
  ghost predicate ClaimsHide(spec: Spec, bundle: Bundle, ctx: Context) {
    && Judgeable(spec, bundle, ctx) && SomethingObserved(spec, bundle)
    && !IndependentlyObserved(spec, bundle) && ReportedMissing(spec.source, bundle.gaps)
  }

  // ---- one rule ----

  /** Erasing the claims leaves exactly the observations that are none. */
  lemma {:induction false} ErasedObserves(spec: Spec, bundle: Bundle)
    ensures forall c :: Observed(spec, WithoutClaims(bundle), c) <==> Observed(spec, bundle, c) && c.origin != CustomerClaim
    ensures SomethingObserved(spec, WithoutClaims(bundle)) <==> IndependentlyObserved(spec, bundle)
  {
    var erased := WithoutClaims(bundle);
    FilterKeeps(bundle.emails, (event: Email) => event.origin != CustomerClaim);
    forall c
      ensures Observed(spec, erased, c) <==> Observed(spec, bundle, c) && c.origin != CustomerClaim
    {
      if spec.source == EmailSource {
        assert forall event :: event in erased.emails <==> event in bundle.emails && event.origin != CustomerClaim;
      }
    }
    SomethingIsSome(spec, erased);
  }

  lemma {:induction false} SomethingIsSome(spec: Spec, bundle: Bundle)
    ensures SomethingObserved(spec, bundle) <==> exists c :: Observed(spec, bundle, c)
  {
    if SomethingObserved(spec, bundle) {
      var c := if spec.source == CrmSource then FromCrm(bundle.crm.value, spec) else FromEmail(bundle.emails[0], spec.field);
      assert spec.source == EmailSource ==> bundle.emails[0] in bundle.emails;
      assert Observed(spec, bundle, c);
    }
  }

  lemma {:induction false} ErasedJudges(e: Engine, spec: Spec, bundle: Bundle, ctx: Context)
    requires spec.mandatory
    ensures var erased := WithoutClaims(bundle);
      && (Judgeable(spec, bundle, ctx) <==> Judgeable(spec, erased, ctx))
      && (Witnessed(e, spec, bundle, ctx) <==> Witnessed(e, spec, erased, ctx))
      && (Judgeable(spec, bundle, ctx) ==> (SomeRefutes(e, spec, bundle, ctx) <==> SomeRefutes(e, spec, erased, ctx)))
  {
    var erased := WithoutClaims(bundle);
    ErasedObserves(spec, bundle);
    assert Judgeable(spec, bundle, ctx) <==> Judgeable(spec, erased, ctx);
    if Judgeable(spec, bundle, ctx) {
      assert forall c :: Eligible(spec, bundle, ctx, c) <==> Eligible(spec, erased, ctx, c);
      assert forall c :: Witness(e, spec, bundle, ctx, c) <==> Witness(e, spec, erased, ctx, c);
    }
  }

  /** What the claims do to one required rule, exactly: they never support it; they refute it alone, shield it from
      being refuted, or hide that its source found nothing, and nothing else. */
  lemma {:induction false} ClaimsOnOneRule(e: Engine, spec: Spec, bundle: Bundle, ctx: Context)
    requires spec.mandatory
    ensures var erased := WithoutClaims(bundle);
      && (Witnessed(e, spec, bundle, ctx) <==> Witnessed(e, spec, erased, ctx))
      && (Refuted(e, spec, bundle, ctx) && !Refuted(e, spec, erased, ctx) <==> ClaimsRefute(spec, bundle, ctx))
      && (!Refuted(e, spec, bundle, ctx) && Refuted(e, spec, erased, ctx) <==> ClaimsShield(spec, bundle, ctx))
      && (!ConfirmedMissing(spec, bundle, ctx) && ConfirmedMissing(spec, erased, ctx) <==> ClaimsHide(spec, bundle, ctx))
      && (ConfirmedMissing(spec, bundle, ctx) ==> ConfirmedMissing(spec, erased, ctx))
  {
    ErasedObserves(spec, bundle);
    ErasedJudges(e, spec, bundle, ctx);
    SomethingIsSome(spec, bundle);
    if Judgeable(spec, bundle, ctx) {
      assert forall c | Eligible(spec, bundle, ctx, c) :: Observed(spec, bundle, c) && OwnAccount(spec, ctx, c);
    }
  }

  /** A customer's own claims change nothing about whether a run is VERIFIED. */
  lemma {:induction false} ClaimsCannotVerify(e: Engine, specs: seq<Spec>, bundle: Bundle, ctx: Context, when: DecisionContext)
    requires SomeMandatory(specs)
    ensures Run(e, specs, bundle, ctx, when).Some? && Run(e, specs, WithoutClaims(bundle), ctx, when).Some?
    ensures Run(e, specs, bundle, ctx, when).value.status == Verified
            <==> Run(e, specs, WithoutClaims(bundle), ctx, when).value.status == Verified
  {
    RunMeaning(e, specs, bundle, ctx, when);
    RunMeaning(e, specs, WithoutClaims(bundle), ctx, when);
    forall spec | spec in specs && spec.mandatory
      ensures Witnessed(e, spec, bundle, ctx) <==> Witnessed(e, spec, WithoutClaims(bundle), ctx)
    {
      ClaimsOnOneRule(e, spec, bundle, ctx);
    }
  }

  // ---- the run ----

  predicate Late(when: DecisionContext) {
    when.workingAccess && when.now >= when.deadlineAt
  }

  /** The rule would be refuted without the claims. */
  ghost predicate RefutedAnyway(e: Engine, spec: Spec, bundle: Bundle, ctx: Context) {
    (Refuted(e, spec, bundle, ctx) && !ClaimsRefute(spec, bundle, ctx)) || ClaimsShield(spec, bundle, ctx)
  }

  /** Every open required rule is confirmed missing, or would be without the claims. */
  ghost predicate RestMissingAnyway(e: Engine, specs: seq<Spec>, bundle: Bundle, ctx: Context) {
    forall spec | spec in specs :: spec.mandatory && !Witnessed(e, spec, bundle, ctx) ==>
      ConfirmedMissing(spec, bundle, ctx) || ClaimsHide(spec, bundle, ctx)
  }

  ghost predicate SomeClaimsRefute(specs: seq<Spec>, bundle: Bundle, ctx: Context) {
    exists spec | spec in specs :: spec.mandatory && ClaimsRefute(spec, bundle, ctx)
  }

  ghost predicate SomeClaimsShield(specs: seq<Spec>, bundle: Bundle, ctx: Context) {
    exists spec | spec in specs :: spec.mandatory && ClaimsShield(spec, bundle, ctx)
  }

  ghost predicate SomeClaimsHide(specs: seq<Spec>, bundle: Bundle, ctx: Context) {
    exists spec | spec in specs :: spec.mandatory && ClaimsHide(spec, bundle, ctx)
  }

  ghost predicate SomeRefutedAnyway(e: Engine, specs: seq<Spec>, bundle: Bundle, ctx: Context) {
    exists spec | spec in specs :: spec.mandatory && RefutedAnyway(e, spec, bundle, ctx)
  }

  /** A required rule is refuted by claims alone, and nothing else would fail the run. */
  ghost predicate ClaimsFail(e: Engine, specs: seq<Spec>, bundle: Bundle, ctx: Context, when: DecisionContext) {
    && SomeClaimsRefute(specs, bundle, ctx) && !SomeRefutedAnyway(e, specs, bundle, ctx)
    && !(Late(when) && RestMissingAnyway(e, specs, bundle, ctx))
  }

  /** No required rule is refuted, and claims shield one, or hide after the deadline that the open ones are missing. */
  ghost predicate ClaimsRescue(e: Engine, specs: seq<Spec>, bundle: Bundle, ctx: Context, when: DecisionContext) {
    && !SomeRefuted(e, specs, bundle, ctx)
    && (|| SomeClaimsShield(specs, bundle, ctx)
        || (Late(when) && RestMissingAnyway(e, specs, bundle, ctx) && SomeClaimsHide(specs, bundle, ctx)))
  }

  lemma {:induction false} ErasedRun(e: Engine, specs: seq<Spec>, bundle: Bundle, ctx: Context)
    ensures SomeRefuted(e, specs, WithoutClaims(bundle), ctx) <==> SomeRefutedAnyway(e, specs, bundle, ctx)
    ensures AllWitnessed(e, specs, WithoutClaims(bundle), ctx) <==> AllWitnessed(e, specs, bundle, ctx)
    ensures RestMissing(e, specs, WithoutClaims(bundle), ctx) <==> RestMissingAnyway(e, specs, bundle, ctx)
  {
    var erased := WithoutClaims(bundle);
    forall spec | spec in specs && spec.mandatory
      ensures Refuted(e, spec, erased, ctx) <==> RefutedAnyway(e, spec, bundle, ctx)
      ensures Witnessed(e, spec, erased, ctx) <==> Witnessed(e, spec, bundle, ctx)
      ensures ConfirmedMissing(spec, erased, ctx) <==> ConfirmedMissing(spec, bundle, ctx) || ClaimsHide(spec, bundle, ctx)
    {
      ClaimsOnOneRule(e, spec, bundle, ctx);
    }
  }

  /** A rule that claims refute, shield or hide is open either way. */
  lemma {:induction false} ClaimsLeaveOpen(e: Engine, spec: Spec, bundle: Bundle, ctx: Context)
    requires spec.mandatory
    requires ClaimsRefute(spec, bundle, ctx) || ClaimsShield(spec, bundle, ctx) || ClaimsHide(spec, bundle, ctx)
    ensures !Witnessed(e, spec, bundle, ctx) && !ConfirmedMissing(spec, bundle, ctx)
    ensures ClaimsRefute(spec, bundle, ctx) ==> Refuted(e, spec, bundle, ctx)
  {
    SomethingIsSome(spec, bundle);
    ClaimsOnOneRule(e, spec, bundle, ctx);
  }

  /** Rule by rule, the run with its claims against the run without them. */
  lemma {:induction false} ClaimsAcrossRules(e: Engine, specs: seq<Spec>, bundle: Bundle, ctx: Context)
    ensures SomeRefuted(e, specs, bundle, ctx) && !SomeRefutedAnyway(e, specs, bundle, ctx)
            <==> SomeClaimsRefute(specs, bundle, ctx) && !SomeRefutedAnyway(e, specs, bundle, ctx)
    ensures !SomeRefuted(e, specs, bundle, ctx) && SomeRefutedAnyway(e, specs, bundle, ctx)
            <==> !SomeRefuted(e, specs, bundle, ctx) && SomeClaimsShield(specs, bundle, ctx)
    ensures !RestMissing(e, specs, bundle, ctx) && RestMissingAnyway(e, specs, bundle, ctx)
            <==> RestMissingAnyway(e, specs, bundle, ctx) && SomeClaimsHide(specs, bundle, ctx)
    ensures SomeClaimsShield(specs, bundle, ctx) || SomeClaimsHide(specs, bundle, ctx)
            ==> !AllWitnessed(e, specs, bundle, ctx) && !RestMissing(e, specs, bundle, ctx)
    ensures RestMissing(e, specs, bundle, ctx) ==> RestMissingAnyway(e, specs, bundle, ctx)
  {
    forall spec | spec in specs && spec.mandatory
      && (ClaimsRefute(spec, bundle, ctx) || ClaimsShield(spec, bundle, ctx) || ClaimsHide(spec, bundle, ctx))
      ensures !Witnessed(e, spec, bundle, ctx) && !ConfirmedMissing(spec, bundle, ctx)
      ensures ClaimsRefute(spec, bundle, ctx) ==> Refuted(e, spec, bundle, ctx)
    {
      ClaimsLeaveOpen(e, spec, bundle, ctx);
    }
  }

  /** The exact account of what claims do to a run: erasing them changes its status in two cases only, from FAILED when
      claims alone fail it, and to FAILED when claims alone keep it from failing. */
  lemma {:induction false} ClaimsChangeExactly(e: Engine, specs: seq<Spec>, bundle: Bundle, ctx: Context, when: DecisionContext)
    requires SomeMandatory(specs)
    ensures Run(e, specs, bundle, ctx, when).Some? && Run(e, specs, WithoutClaims(bundle), ctx, when).Some?
    ensures var status, erased := Run(e, specs, bundle, ctx, when).value.status,
                                  Run(e, specs, WithoutClaims(bundle), ctx, when).value.status;
      && (status == Failed && erased != Failed <==> ClaimsFail(e, specs, bundle, ctx, when))
      && (status != Failed && erased == Failed <==> ClaimsRescue(e, specs, bundle, ctx, when))
      && (status != erased <==> ClaimsFail(e, specs, bundle, ctx, when) || ClaimsRescue(e, specs, bundle, ctx, when))
  {
    RunMeaning(e, specs, bundle, ctx, when);
    RunMeaning(e, specs, WithoutClaims(bundle), ctx, when);
    ErasedRun(e, specs, bundle, ctx);
    ClaimsAcrossRules(e, specs, bundle, ctx);
  }

  // ---- both cases arise ----

  lemma {:induction false} ForeignClaimRefutes(spec: Spec, bundle: Bundle, ctx: Context)
    requires spec.source == CrmSource && Judgeable(spec, bundle, ctx)
    requires bundle.crm.Some? && bundle.crm.value.origin == CustomerClaim
    requires IsPresent(ctx.crmAccount) && bundle.crm.value.accountId != ctx.crmAccount.value
    ensures ClaimsRefute(spec, bundle, ctx) && !ClaimsShield(spec, bundle, ctx)
    ensures ClaimsHide(spec, bundle, ctx) <==> ReportedMissing(CrmSource, bundle.gaps)
  {
  }

  /** A claimed record in another account is still a stranger's: it fails the run. Without it the run would not be
      FAILED, unless another rule is refuted anyway, or the deadline passed and everything open is missing anyway. */
  lemma {:induction false} ForeignClaimFails(e: Engine, specs: seq<Spec>, bundle: Bundle, ctx: Context, when: DecisionContext, spec: Spec)
    requires spec in specs && spec.mandatory && spec.source == CrmSource && Judgeable(spec, bundle, ctx)
    requires bundle.crm.Some? && bundle.crm.value.origin == CustomerClaim
    requires IsPresent(ctx.crmAccount) && bundle.crm.value.accountId != ctx.crmAccount.value
    ensures Run(e, specs, bundle, ctx, when).Some? && Run(e, specs, bundle, ctx, when).value.status == Failed
    ensures ClaimsFail(e, specs, bundle, ctx, when)
       <==> !SomeRefutedAnyway(e, specs, bundle, ctx) && !(Late(when) && RestMissingAnyway(e, specs, bundle, ctx))
  {
    ForeignClaimRefutes(spec, bundle, ctx);
    ClaimsOnOneRule(e, spec, bundle, ctx);
    RefutedRunFails(e, specs, bundle, ctx, when, spec);
  }

  lemma {:induction false} RefutedRunFails(e: Engine, specs: seq<Spec>, bundle: Bundle, ctx: Context, when: DecisionContext, spec: Spec)
    requires spec in specs && spec.mandatory && Refuted(e, spec, bundle, ctx)
    ensures Run(e, specs, bundle, ctx, when).Some? && Run(e, specs, bundle, ctx, when).value.status == Failed
  {
    var i :| 0 <= i < |specs| && specs[i] == spec;
    assert SomeMandatory(specs);
    RunMeaning(e, specs, bundle, ctx, when);
  }

  /** With that one rule alone, the claim fails the run unless the deadline passed and the source found nothing. */
  lemma {:induction false} ForeignClaimFailsAlone(e: Engine, spec: Spec, bundle: Bundle, ctx: Context, when: DecisionContext)
    requires spec.mandatory && spec.source == CrmSource && Judgeable(spec, bundle, ctx)
    requires bundle.crm.Some? && bundle.crm.value.origin == CustomerClaim
    requires IsPresent(ctx.crmAccount) && bundle.crm.value.accountId != ctx.crmAccount.value
    ensures ClaimsFail(e, [spec], bundle, ctx, when) <==> !(Late(when) && ReportedMissing(CrmSource, bundle.gaps))
  {
    assert [spec][0] == spec && spec in [spec];
    ForeignClaimRefutes(spec, bundle, ctx);
    ClaimsLeaveOpen(e, spec, bundle, ctx);
  }

  /** A claimed record that is not a stranger's keeps a run from FAILED that passed its deadline with nothing found. */
  lemma {:induction false} OwnClaimRescues(e: Engine, spec: Spec, bundle: Bundle, ctx: Context, when: DecisionContext)
    requires spec.mandatory && spec.source == CrmSource && Judgeable(spec, bundle, ctx)
    requires bundle.crm.Some? && bundle.crm.value.origin == CustomerClaim
    requires IsPresent(ctx.crmAccount) ==> bundle.crm.value.accountId == ctx.crmAccount.value
    ensures ClaimsRescue(e, [spec], bundle, ctx, when) <==> Late(when) && ReportedMissing(CrmSource, bundle.gaps)
  {
    var c := FromCrm(bundle.crm.value, spec);
    assert Observed(spec, bundle, c) && OwnAccount(spec, ctx, c);
    assert [spec][0] == spec && spec in [spec];
    ClaimsOnOneRule(e, spec, bundle, ctx);
    ClaimsAcrossRules(e, [spec], bundle, ctx);
  }
}
