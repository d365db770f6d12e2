/** What a verdict means: the gates and the operator read back as statements about the evidence. */
module Soundness {
  import opened Text
  import opened Lists
  import opened Evidence
  import opened Evaluate
  import opened Decide

  // ---- addresses ----

  /** local@domain with nothing to trim: no space, quote or angle bracket at the ends, one '@' last. */
  ghost predicate PlainAddress(local: string, domain: string) {
    && local != "" && !IsSpace(local[0]) && local[0] != '"'
    && domain != "" && !IsSpace(domain[|domain| - 1]) && domain[|domain| - 1] !in {'"', '>', '.'}
    && '@' !in domain
  }

  lemma {:induction false} NothingToStrip(s: string)
    requires s != "" && !IsSpace(s[0]) && !IsSpace(s[|s| - 1]) && s[0] != '"' && s[|s| - 1] !in {'"', '>'}
    ensures Unwrap(s) == s
  {
    TrimSolid(s);
  }

  lemma {:induction false} LastAt(s: string, n: nat)
    requires n < |s| && s[n] == '@' && forall i | n < i < |s| :: s[i] != '@'
    ensures LastIndexOfChar(s, '@') == n
  {
    var at := LastIndexOfChar(s, '@');
    assert at >= n ==> s[at] == '@';
  }

  lemma {:induction false} FoldHalves(lower: string -> string, s: string, local: string, domain: string)
    requires LastIndexOfChar(s, '@') == |local| > 0 && domain != "" && |s| == |local| + 1 + |domain|
    requires s[..|local|] == local && s[|local| + 1..] == domain && domain[|domain| - 1] != '.'
    ensures FoldAddress(lower, s) == lower(local) + "@" + lower(domain)
  {
  }

  lemma {:induction false} NormalisePlain(lower: string -> string, local: string, domain: string, s: string)
    requires PlainAddress(local, domain) && s == local + "@" + domain
    ensures NormaliseEmailAddress(lower, s) == lower(local) + "@" + lower(domain)
  {
    assert s[0] == local[0] && s[|s| - 1] == domain[|domain| - 1];
    assert s[..|local|] == local && s[|local| + 1..] == domain;
    assert forall i | |local| < i < |s| :: s[i] == domain[i - |local| - 1] && domain[i - |local| - 1] in domain;
    NothingToStrip(s);
    LastAt(s, |local|);
    FoldHalves(lower, s, local, domain);
  }

  /** Normalising never widens: two plain addresses are the same mailbox exactly when both halves agree
      without case, so a +tag or a dot in the local part keeps them apart. */
  lemma {:induction false} NormalisingNeverWidens(lower: string -> string, local: string, domain: string, local': string, domain': string)
    requires PlainAddress(local, domain) && PlainAddress(local', domain')
    requires '@' !in lower(domain) && '@' !in lower(domain')
    ensures NormaliseEmailAddress(lower, local + "@" + domain) == NormaliseEmailAddress(lower, local' + "@" + domain')
            <==> lower(local) == lower(local') && lower(domain) == lower(domain')
  {
    NormalisePlain(lower, local, domain, local + "@" + domain);
    NormalisePlain(lower, local', domain', local' + "@" + domain');
    JoinedApart(lower(local), lower(domain), lower(local'), lower(domain'));
  }

  lemma {:induction false} JoinedApart(a: string, b: string, a': string, b': string)
    requires '@' !in b && '@' !in b'
    ensures a + "@" + b == a' + "@" + b' <==> a == a' && b == b'
  {
    var s, s' := a + "@" + b, a' + "@" + b';
    if s == s' {
      AtOf(a, b, s);
      AtOf(a', b', s');
      assert s[..|a|] == a && s[|a| + 1..] == b && s'[..|a'|] == a' && s'[|a'| + 1..] == b';
    }
  }

  lemma {:induction false} AtOf(a: string, b: string, s: string)
    requires '@' !in b && s == a + "@" + b
    ensures LastIndexOfChar(s, '@') == |a|
  {
    assert s[|a|] == '@';
    assert forall i | |a| < i < |s| :: s[i] == b[i - |a| - 1] && b[i - |a| - 1] in b;
    LastAt(s, |a|);
  }

  // ---- one assertion ----

  /** The rule can be judged for this run: it has something to compare with, it is usable, and the
      source did not report an ambiguous match. */
  ghost predicate Judgeable(spec: Spec, bundle: Bundle, ctx: Context) {
    && ResolveExpected(spec, ctx).Some?
    && Usable(spec, ResolveExpected(spec, ctx).value)
    && forall g | g in bundle.gaps :: g.source == spec.source ==> !g.code.AmbiguousMatch?
  }

  /** c is an observation of the rule's source in this bundle. */
  ghost predicate Observed(spec: Spec, bundle: Bundle, c: Candidate) {
    if spec.source == CrmSource then bundle.crm.Some? && c == FromCrm(bundle.crm.value, spec)
    else exists event | event in bundle.emails :: c == FromEmail(event, spec.field)
  }

  ghost predicate SomethingObserved(spec: Spec, bundle: Bundle) {
    if spec.source == CrmSource then bundle.crm.Some? else bundle.emails != []
  }

  ghost predicate OwnAccount(spec: Spec, ctx: Context, c: Candidate) {
    IsPresent(ConnectedAccount(spec, ctx)) ==> c.accountId == ConnectedAccount(spec, ctx).value
  }

  /** c may decide the rule: ours, and not the customer's own claim where the rule is mandatory. */
  ghost predicate Eligible(spec: Spec, bundle: Bundle, ctx: Context, c: Candidate) {
    && Observed(spec, bundle, c) && OwnAccount(spec, ctx, c)
    && (spec.mandatory ==> c.origin != CustomerClaim)
  }

  /** The value is what the rule asks for. */
  ghost predicate Meets(e: Engine, spec: Spec, expected: Expected, occurredAt: int, v: Value)
    requires Usable(spec, expected)
  {
    match spec.operator
    case Exists => Present(v)
    case Equals => Present(v) && SameText(e, spec.field, v.text, expected.text)
    case NotEquals => Present(v) && !SameText(e, spec.field, v.text, expected.text)
    case NormalisedEmailEquals =>
      Present(v) && NormaliseEmailAddress(e.lower, v.text) == NormaliseEmailAddress(e.lower, expected.text)
    case OneOf => Present(v) && exists a | a in expected.values :: SameText(e, spec.field, v.text, a)
    case OccurredWithin =>
      && Present(v) && e.parse(v.text).Some?
      && occurredAt <= e.parse(v.text).value <= occurredAt + expected.number.Floor * 1000
    case ProviderStatusIn => v.Text? && v.text in expected.values
    case OtherOperator(_) => false
  }

  /** The value is evidence against the rule, which is more than not being what it asks for. */
  ghost predicate Refutes(e: Engine, spec: Spec, expected: Expected, occurredAt: int, v: Value)
    requires Usable(spec, expected)
  {
    match spec.operator
    case Exists => !Present(v)
    case NotEquals => Present(v) && SameText(e, spec.field, v.text, expected.text)
    case OccurredWithin =>
      Present(v) && e.parse(v.text).Some? && !Meets(e, spec, expected, occurredAt, v)
    case ProviderStatusIn => v.Text? && v.text in CONTRADICTING
    case _ => !v.NotReturned? && !Meets(e, spec, expected, occurredAt, v)
  }

  /** Evidence in the bundle that supports the rule. */
  ghost predicate Witness(e: Engine, spec: Spec, bundle: Bundle, ctx: Context, c: Candidate)
    requires Judgeable(spec, bundle, ctx)
  {
    && Eligible(spec, bundle, ctx, c)
    && Meets(e, spec, ResolveExpected(spec, ctx).value, ctx.occurredAt, c.value)
  }

  ghost predicate Witnessed(e: Engine, spec: Spec, bundle: Bundle, ctx: Context) {
    Judgeable(spec, bundle, ctx) && exists c :: Witness(e, spec, bundle, ctx, c)
  }

  ghost predicate AllForeign(spec: Spec, bundle: Bundle, ctx: Context) {
    forall c | Observed(spec, bundle, c) :: !OwnAccount(spec, ctx, c)
  }

  ghost predicate SomeRefutes(e: Engine, spec: Spec, bundle: Bundle, ctx: Context)
    requires Judgeable(spec, bundle, ctx)
  {
    exists c | Eligible(spec, bundle, ctx, c) ::
      Refutes(e, spec, ResolveExpected(spec, ctx).value, ctx.occurredAt, c.value)
  }

  /** Every record is in a stranger's account, or nothing eligible meets the rule and something refutes it. */
  ghost predicate Refuted(e: Engine, spec: Spec, bundle: Bundle, ctx: Context) {
    && Judgeable(spec, bundle, ctx) && SomethingObserved(spec, bundle)
    && (AllForeign(spec, bundle, ctx) || (SomeRefutes(e, spec, bundle, ctx) && !Witnessed(e, spec, bundle, ctx)))
  }

  /** Nothing was observed and the source's first report is that there is nothing there. */
  ghost predicate ConfirmedMissing(spec: Spec, bundle: Bundle, ctx: Context) {
    && Judgeable(spec, bundle, ctx) && !SomethingObserved(spec, bundle)
    && exists i | 0 <= i < |bundle.gaps| ::
         && bundle.gaps[i].source == spec.source && bundle.gaps[i].code == NotFound
         && forall j | 0 <= j < i :: bundle.gaps[j].source != spec.source
  }

  lemma {:induction false} OperatorMeaning(e: Engine, spec: Spec, v: Value, occurredAt: int, expected: Expected)
    requires Usable(spec, expected) && !spec.operator.ProviderStatusIn?
    ensures var verdict := ApplyOperator(e, spec, v, occurredAt, expected);
      && (verdict.status == Supported <==> Meets(e, spec, expected, occurredAt, v))
      && (verdict.status == Contradicted <==> Refutes(e, spec, expected, occurredAt, v))
      && !IsAuthoritativeAbsence(verdict.reason)
      && verdict.status != Pending
  {
  }

  lemma {:induction false} CandidatesAreObserved(spec: Spec, bundle: Bundle)
    ensures forall c :: c in Candidates(bundle, spec) <==> Observed(spec, bundle, c)
    ensures Candidates(bundle, spec) == [] <==> !SomethingObserved(spec, bundle)
  {
    if spec.source == EmailSource {
      MapHolds(bundle.emails, (event: Email) => FromEmail(event, spec.field));
    }
  }

  lemma {:induction false} GatesAreEligible(spec: Spec, bundle: Bundle, ctx: Context, owned: seq<Candidate>, pool: seq<Candidate>)
    requires owned == Owned(Candidates(bundle, spec), ConnectedAccount(spec, ctx))
    requires pool == Independent(owned, spec.mandatory)
    ensures owned == [] <==> AllForeign(spec, bundle, ctx)
    ensures forall c :: c in pool <==> Eligible(spec, bundle, ctx, c)
  {
    CandidatesAreObserved(spec, bundle);
    var account := ConnectedAccount(spec, ctx);
    if IsPresent(account) {
      FilterKeeps(Candidates(bundle, spec), (c: Candidate) => c.accountId == account.value);
    }
    FilterKeeps(owned, (c: Candidate) => c.origin != CustomerClaim);
    assert forall c :: c in owned <==> Observed(spec, bundle, c) && OwnAccount(spec, ctx, c);
    assert owned != [] ==> owned[0] in owned;
  }

  /** The ladder is: any allowed status supports, else any failure status contradicts, else unknown. */
  lemma {:induction false} LadderMeaning(e: Engine, spec: Spec, cs: seq<Candidate>, occurredAt: int)
    requires Usable(spec, spec.expected) && spec.operator.ProviderStatusIn?
    ensures var status := EvaluateStatusLadder(spec, cs).0.status;
      && (status == Supported <==> exists c | c in cs :: Meets(e, spec, spec.expected, occurredAt, c.value))
      && (status == Contradicted <==>
            && (forall c | c in cs :: !Meets(e, spec, spec.expected, occurredAt, c.value))
            && exists c | c in cs :: Refutes(e, spec, spec.expected, occurredAt, c.value))
      && status != Pending && !IsAuthoritativeAbsence(EvaluateStatusLadder(spec, cs).0.reason)
  {
    var allowed := set s | s in spec.expected.values;
    assert forall c: Candidate :: IsStatusIn(c, allowed) <==> Meets(e, spec, spec.expected, occurredAt, c.value);
    assert forall c: Candidate :: IsStatusIn(c, CONTRADICTING) <==> Refutes(e, spec, spec.expected, occurredAt, c.value);
  }

  lemma {:induction false} BestMeaning(e: Engine, spec: Spec, cs: seq<Candidate>, occurredAt: int, expected: Expected, vs: seq<Verdict>, i: nat)
    requires Usable(spec, expected) && !spec.operator.ProviderStatusIn? && cs != []
    requires vs == Verdicts(e, spec, cs, occurredAt, expected) && IsBest(vs, i)
    ensures vs[i].status == Supported <==> exists c | c in cs :: Meets(e, spec, expected, occurredAt, c.value)
    ensures vs[i].status == Contradicted <==>
              && (forall c | c in cs :: !Meets(e, spec, expected, occurredAt, c.value))
              && exists c | c in cs :: Refutes(e, spec, expected, occurredAt, c.value)
    ensures vs[i].status != Pending && !IsAuthoritativeAbsence(vs[i].reason)
  {
    forall k | 0 <= k < |cs|
      ensures vs[k].status == Supported <==> Meets(e, spec, expected, occurredAt, cs[k].value)
      ensures vs[k].status == Contradicted <==> Refutes(e, spec, expected, occurredAt, cs[k].value)
      ensures !IsAuthoritativeAbsence(vs[k].reason) && vs[k].status != Pending
      ensures Rank(vs[k].status) <= Rank(vs[i].status)
    {
      OperatorMeaning(e, spec, cs[k].value, occurredAt, expected);
    }
    assert cs[i] in cs;
  }

  lemma {:induction false} OperateMeaning(e: Engine, spec: Spec, cs: seq<Candidate>, occurredAt: int, expected: Expected)
    requires Usable(spec, expected) && cs != [] && (spec.expectedFrom.None? ==> expected == spec.expected)
    ensures var r := Operate(e, spec, cs, occurredAt, expected);
      && (r.status == Supported <==> exists c | c in cs :: Meets(e, spec, expected, occurredAt, c.value))
      && (r.status == Contradicted <==>
            && (forall c | c in cs :: !Meets(e, spec, expected, occurredAt, c.value))
            && exists c | c in cs :: Refutes(e, spec, expected, occurredAt, c.value))
      && r.status != Pending && !IsAuthoritativeAbsence(r.reason)
  {
    if spec.operator.ProviderStatusIn? {
      LadderMeaning(e, spec, cs, occurredAt);
    } else {
      var vs := Verdicts(e, spec, cs, occurredAt, expected);
      BestMeaning(e, spec, cs, occurredAt, expected, vs, Best(vs));
    }
  }

  lemma {:induction false} FilterHead<T>(s: seq<T>, keep: T -> bool)
    ensures Filter(s, keep) == [] <==> forall x | x in s :: !keep(x)
    ensures Filter(s, keep) != [] ==>
      exists i | 0 <= i < |s| :: s[i] == Filter(s, keep)[0] && keep(s[i]) && forall j | 0 <= j < i :: !keep(s[j])
  {
    FilterKeeps(s, keep);
    if s != [] {
      var init := s[..|s| - 1];
      FilterHead(init, keep);
      FilterKeeps(init, keep);
      if Filter(init, keep) == [] {
        assert forall j | 0 <= j < |init| :: s[j] == init[j] && init[j] in init;
        assert keep(s[|s| - 1]) ==> s[|s| - 1] == Filter(s, keep)[0];
      } else {
        var i :| 0 <= i < |init| && init[i] == Filter(init, keep)[0] && keep(init[i]) && forall j | 0 <= j < i :: !keep(init[j]);
        assert s[i] == Filter(s, keep)[0];
        assert forall j | 0 <= j < i :: s[j] == init[j];
      }
    }
    assert Filter(s, keep) != [] ==> Filter(s, keep)[0] in Filter(s, keep);
  }

  lemma {:induction false} FirstGapMeaning(spec: Spec, bundle: Bundle, gaps: seq<Gap>)
    requires gaps == GapsFor(bundle, spec.source)
    ensures Ambiguous(gaps) <==> exists g | g in bundle.gaps :: g.source == spec.source && g.code.AmbiguousMatch?
    ensures gaps != [] && gaps[0].code == NotFound <==>
      exists i | 0 <= i < |bundle.gaps| ::
        && bundle.gaps[i].source == spec.source && bundle.gaps[i].code == NotFound
        && forall j | 0 <= j < i :: bundle.gaps[j].source != spec.source
  {
    var here := (g: Gap) => g.source == spec.source;
    FilterKeeps(bundle.gaps, here);
    FilterHead(bundle.gaps, here);
    if gaps != [] {
      var i :| 0 <= i < |bundle.gaps| && bundle.gaps[i] == gaps[0] && here(bundle.gaps[i])
               && forall j | 0 <= j < i :: !here(bundle.gaps[j]);
      forall k | 0 <= k < |bundle.gaps| && bundle.gaps[k].source == spec.source
                 && forall j | 0 <= j < k :: bundle.gaps[j].source != spec.source
        ensures k == i
      {
        assert !(i < k) && !(k < i);
      }
    } else {
      assert forall i | 0 <= i < |bundle.gaps| :: bundle.gaps[i] in bundle.gaps;
    }
  }

  lemma {:induction false} UnjudgeableIsUnknown(e: Engine, spec: Spec, bundle: Bundle, ctx: Context)
    requires !Judgeable(spec, bundle, ctx)
    ensures Assess(e, spec, bundle, ctx).status == Unknown
    ensures Assess(e, spec, bundle, ctx).reason in {BindingUnavailable, RuleUnsupported, RecordAmbiguous}
  {
    FirstGapMeaning(spec, bundle, GapsFor(bundle, spec.source));
  }

  lemma {:induction false} NothingObservedIsUnknown(e: Engine, spec: Spec, bundle: Bundle, ctx: Context)
    requires Judgeable(spec, bundle, ctx) && !SomethingObserved(spec, bundle)
    ensures Assess(e, spec, bundle, ctx).status == Unknown
    ensures IsAuthoritativeAbsence(Assess(e, spec, bundle, ctx).reason) <==> ConfirmedMissing(spec, bundle, ctx)
  {
    FirstGapMeaning(spec, bundle, GapsFor(bundle, spec.source));
    CandidatesAreObserved(spec, bundle);
  }

  /** With something observed, the gates leave `pool`, and `pool` decides. */
  lemma {:induction false} ObservedIsDecidedByPool(e: Engine, spec: Spec, bundle: Bundle, ctx: Context,
                                owned: seq<Candidate>, pool: seq<Candidate>)
    requires Judgeable(spec, bundle, ctx) && SomethingObserved(spec, bundle)
    requires owned == Owned(Candidates(bundle, spec), ConnectedAccount(spec, ctx))
    requires pool == Independent(owned, spec.mandatory)
    ensures var r := Assess(e, spec, bundle, ctx);
      && (owned == [] ==> r.status == Contradicted && r.reason == RecordWrongAccount)
      && (owned != [] && pool == [] ==> r.status == Unknown && r.reason == ClaimNotIndependent)
      && (pool != [] ==> owned != [] && r == Operate(e, spec, pool, ctx.occurredAt, ResolveExpected(spec, ctx).value))
  {
    FirstGapMeaning(spec, bundle, GapsFor(bundle, spec.source));
    CandidatesAreObserved(spec, bundle);
  }

  /** The verdict of a pool that stands for the eligible observations. */
  lemma {:induction false} PoolMeaning(e: Engine, spec: Spec, bundle: Bundle, ctx: Context, pool: seq<Candidate>)
    requires Judgeable(spec, bundle, ctx) && pool != []
    requires forall c :: c in pool <==> Eligible(spec, bundle, ctx, c)
    ensures var r := Operate(e, spec, pool, ctx.occurredAt, ResolveExpected(spec, ctx).value);
      && (r.status == Supported <==> Witnessed(e, spec, bundle, ctx))
      && (r.status == Contradicted <==> SomeRefutes(e, spec, bundle, ctx) && !Witnessed(e, spec, bundle, ctx))
      && !IsAuthoritativeAbsence(r.reason) && r.status != Pending
  {
    var expected := ResolveExpected(spec, ctx).value;
    OperateMeaning(e, spec, pool, ctx.occurredAt, expected);
    if c :| c in pool && Meets(e, spec, expected, ctx.occurredAt, c.value) {
      assert Witness(e, spec, bundle, ctx, c);
    }
  }

  lemma {:induction false} NobodyEligible(e: Engine, spec: Spec, bundle: Bundle, ctx: Context, pool: seq<Candidate>)
    requires Judgeable(spec, bundle, ctx) && pool == []
    requires forall c :: c in pool <==> Eligible(spec, bundle, ctx, c)
    ensures !Witnessed(e, spec, bundle, ctx) && !SomeRefutes(e, spec, bundle, ctx)
  {
  }

  lemma {:induction false} ObservedMeaning(e: Engine, spec: Spec, bundle: Bundle, ctx: Context)
    requires Judgeable(spec, bundle, ctx) && SomethingObserved(spec, bundle)
    ensures var r := Assess(e, spec, bundle, ctx);
      && (r.status == Supported <==> Witnessed(e, spec, bundle, ctx))
      && (r.status == Contradicted <==> Refuted(e, spec, bundle, ctx))
      && !IsAuthoritativeAbsence(r.reason) && r.status != Pending
  {
    var owned := Owned(Candidates(bundle, spec), ConnectedAccount(spec, ctx));
    var pool := Independent(owned, spec.mandatory);
    ObservedIsDecidedByPool(e, spec, bundle, ctx, owned, pool);
    GatesAreEligible(spec, bundle, ctx, owned, pool);
    if pool == [] {
      NobodyEligible(e, spec, bundle, ctx, pool);
    } else {
      PoolMeaning(e, spec, bundle, ctx, pool);
    }
  }

  /** What an assertion's verdict says, exactly, for every rule, bundle and context. */
  lemma {:induction false} CandidateVerdict(e: Engine, spec: Spec, bundle: Bundle, ctx: Context)
    ensures var r := Assess(e, spec, bundle, ctx);
      && (r.status == Supported <==> Witnessed(e, spec, bundle, ctx))
      && (r.status == Contradicted <==> Refuted(e, spec, bundle, ctx))
      && (IsAuthoritativeAbsence(r.reason) <==> ConfirmedMissing(spec, bundle, ctx))
      && r.status != Pending && r.mandatory == spec.mandatory && r.ruleId == spec.ruleId
  {
    KeepsIdentity(e, spec, bundle, ctx);
    if !Judgeable(spec, bundle, ctx) {
      UnjudgeableIsUnknown(e, spec, bundle, ctx);
    } else if SomethingObserved(spec, bundle) {
      ObservedMeaning(e, spec, bundle, ctx);
    } else {
      NothingObservedIsUnknown(e, spec, bundle, ctx);
    }
  }

  lemma {:induction false} KeepsIdentity(e: Engine, spec: Spec, bundle: Bundle, ctx: Context)
    ensures var r := Assess(e, spec, bundle, ctx); r.mandatory == spec.mandatory && r.ruleId == spec.ruleId
  {
  }

  // ---- what an assessment cites ----

  /** The assessment points at this observation. */
  predicate Cites(r: Assessment, c: Candidate) {
    r.evidence == Some(c.ref) && r.observedAt == Some(c.at)
  }

  lemma {:induction false} BestCites(e: Engine, spec: Spec, cs: seq<Candidate>, occurredAt: int, expected: Expected)
    requires Usable(spec, expected) && cs != [] && !spec.operator.ProviderStatusIn?
    requires Operate(e, spec, cs, occurredAt, expected).status == Supported
    ensures exists c | c in cs :: Meets(e, spec, expected, occurredAt, c.value) && Cites(Operate(e, spec, cs, occurredAt, expected), c)
  {
    var vs := Verdicts(e, spec, cs, occurredAt, expected);
    var i := Best(vs);
    OperatorMeaning(e, spec, cs[i].value, occurredAt, expected);
    assert cs[i] in cs;
  }

  lemma {:induction false} LadderCites(e: Engine, spec: Spec, cs: seq<Candidate>, occurredAt: int)
    requires Usable(spec, spec.expected) && cs != [] && spec.operator.ProviderStatusIn?
    requires Operate(e, spec, cs, occurredAt, spec.expected).status == Supported
    ensures exists c | c in cs :: Meets(e, spec, spec.expected, occurredAt, c.value)
                                  && Cites(Operate(e, spec, cs, occurredAt, spec.expected), c)
  {
    var allowed := set s | s in spec.expected.values;
    var c := FirstWhere(cs, c => IsStatusIn(c, allowed)).value;
    assert c in cs;
  }

  /** A supported assertion cites the very evidence that supports it: locator and the provider's own timestamp. */
  lemma {:induction false} SupportedCitesItsWitness(e: Engine, spec: Spec, bundle: Bundle, ctx: Context)
    requires Assess(e, spec, bundle, ctx).status == Supported
    ensures Judgeable(spec, bundle, ctx)
    ensures exists c :: Witness(e, spec, bundle, ctx, c) && Cites(Assess(e, spec, bundle, ctx), c)
  {
    CandidateVerdict(e, spec, bundle, ctx);
    var owned := Owned(Candidates(bundle, spec), ConnectedAccount(spec, ctx));
    var pool := Independent(owned, spec.mandatory);
    var expected := ResolveExpected(spec, ctx).value;
    SomethingWasObserved(e, spec, bundle, ctx);
    ObservedIsDecidedByPool(e, spec, bundle, ctx, owned, pool);
    GatesAreEligible(spec, bundle, ctx, owned, pool);
    PoolCites(e, spec, bundle, ctx, pool, expected);
  }

  lemma {:induction false} SomethingWasObserved(e: Engine, spec: Spec, bundle: Bundle, ctx: Context)
    requires Witnessed(e, spec, bundle, ctx)
    ensures SomethingObserved(spec, bundle)
  {
    var c :| Witness(e, spec, bundle, ctx, c);
  }

  lemma {:induction false} PoolCites(e: Engine, spec: Spec, bundle: Bundle, ctx: Context, pool: seq<Candidate>, expected: Expected)
    requires Judgeable(spec, bundle, ctx) && pool != [] && expected == ResolveExpected(spec, ctx).value
    requires forall c :: c in pool <==> Eligible(spec, bundle, ctx, c)
    requires Operate(e, spec, pool, ctx.occurredAt, expected).status == Supported
    ensures exists c :: Witness(e, spec, bundle, ctx, c) && Cites(Operate(e, spec, pool, ctx.occurredAt, expected), c)
  {
    if spec.operator.ProviderStatusIn? {
      LadderCites(e, spec, pool, ctx.occurredAt);
    } else {
      BestCites(e, spec, pool, ctx.occurredAt, expected);
    }
    var c :| c in pool && Meets(e, spec, expected, ctx.occurredAt, c.value)
             && Cites(Operate(e, spec, pool, ctx.occurredAt, expected), c);
    assert Witness(e, spec, bundle, ctx, c);
  }
}
