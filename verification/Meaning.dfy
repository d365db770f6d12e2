/** What a verdict says about the evidence itself: which field of which record or event, compared how. */
module Meaning {
  import opened Text
  import opened Lists
  import opened Evidence
  import opened Evaluate
  import opened Decide
  import opened Soundness
  import opened Comparing

  // ---- what the rule asks for in this run ----

  /** A literal as written, or the value this run's event carried under the bound name. */
  ghost predicate Wanted(spec: Spec, ctx: Context, wanted: Expected) {
    || (spec.expectedFrom == None && wanted == spec.expected)
    || (&& spec.expectedFrom == Some(BoundCorrelationId)
        && exists text :: ctx.correlationId == Some(text) && Visible(text) && wanted == Words(text))
    || (&& spec.expectedFrom == Some(BoundEmailRecipient)
        && exists text :: ctx.emailRecipient == Some(text) && Visible(text) && wanted == Words(text))
  }

  /** The rule addresses a field of its own source, binds what may be bound, and compares with a fitting value. */
  ghost predicate Askable(spec: Spec, wanted: Expected) {
    && (|| (spec.source == CrmSource
            && spec.field in {RecordId, RecordEmail, RecordCorrelationId, RecordCreatedAt, RecordProperty})
        || (spec.source == EmailSource
            && spec.field in {MessageId, MessageRecipient, MessageStatus, MessageOccurredAt}))
    && (spec.field == RecordProperty ==> spec.propertyName != None)
    && (spec.expectedFrom != None ==> spec.operator in {Equals, NormalisedEmailEquals})
    && (spec.expectedFrom == Some(BoundCorrelationId) ==> spec.field in {RecordCorrelationId, RecordProperty})
    && (spec.expectedFrom == Some(BoundEmailRecipient) ==> spec.field in {MessageRecipient, RecordEmail})
    && (|| spec.operator == Exists
        || (spec.operator in {Equals, NotEquals, NormalisedEmailEquals} && wanted.Words? && Visible(wanted.text))
        || (spec.operator == OneOf && wanted.Listed? && |wanted.values| > 0)
        || (spec.operator == ProviderStatusIn && spec.field == MessageStatus && wanted.Listed? && |wanted.values| > 0
            && forall s | s in wanted.values ::
                 s in {"queued", "accepted", "delivered", "deferred", "bounced", "complained", "failed", "opened", "clicked"})
        || (spec.operator == OccurredWithin && wanted.Amount?
            && exists seconds :: IsSeconds(wanted.number, seconds)))
  }

  ghost predicate IsSeconds(number: real, seconds: nat) {
    number == seconds as real
  }

  ghost predicate Unambiguous(spec: Spec, bundle: Bundle) {
    forall g | g in bundle.gaps :: !(g.source == spec.source && g.code == AmbiguousMatch)
  }

  // ---- which field is read ----

  /** What the record returned for the rule's field, None standing for returned empty; a property the record does
      not list returned nothing at all. */
  ghost predicate RecordReturns(crm: Crm, spec: Spec, returned: Option<string>) {
    || (spec.field == RecordId && returned == Some(crm.recordId))
    || (spec.field == RecordEmail && returned == crm.email)
    || (spec.field == RecordCorrelationId && returned == crm.correlation)
    || (spec.field == RecordCreatedAt && returned == crm.createdAt)
    || (spec.field == RecordProperty && spec.propertyName.Some? && spec.propertyName.value in crm.properties
        && returned == crm.properties[spec.propertyName.value])
  }

  ghost predicate EventReturns(event: Email, spec: Spec, returned: Option<string>) {
    || (spec.field == MessageId && returned == Some(event.messageId))
    || (spec.field == MessageRecipient && returned == event.recipient)
    || (spec.field == MessageStatus && returned == Some(event.status))
    || (spec.field == MessageOccurredAt && returned == Some(event.occurredAt))
  }

  lemma {:induction false} RecordValue(crm: Crm, spec: Spec, returned: Option<string>)
    requires spec.field in {RecordId, RecordEmail, RecordCorrelationId, RecordCreatedAt, RecordProperty}
    ensures RecordReturns(crm, spec, returned) <==> CrmValue(crm, spec) == FromNullable(returned)
    ensures CrmValue(crm, spec).NotReturned? <==> forall r :: !RecordReturns(crm, spec, r)
  {
    var v := CrmValue(crm, spec);
    if !v.NotReturned? {
      assert RecordReturns(crm, spec, if v.Text? then Some(v.text) else None);
    }
  }

  lemma {:induction false} EventValue(event: Email, spec: Spec, returned: Option<string>)
    requires spec.field in {MessageId, MessageRecipient, MessageStatus, MessageOccurredAt}
    ensures EventReturns(event, spec, returned) <==> EmailValue(event, spec.field) == FromNullable(returned)
    ensures EmailValue(event, spec.field).NotReturned? <==> forall r :: !EventReturns(event, spec, r)
  {
    var v := EmailValue(event, spec.field);
    assert EventReturns(event, spec, if v.Text? then Some(v.text) else None);
  }

  // ---- the operators ----

  /** What was returned is what the rule asks for. */
  ghost predicate Asked(e: Engine, spec: Spec, wanted: Expected, occurredAt: int, returned: Option<string>)
    requires Askable(spec, wanted)
  {
    && returned.Some?
    && match spec.operator
       case Exists => Visible(returned.value)
       case Equals => Visible(returned.value) && Agree(e, spec.field, returned.value, wanted.text)
       case NotEquals => Visible(returned.value) && !Agree(e, spec.field, returned.value, wanted.text)
       case NormalisedEmailEquals =>
         && Visible(returned.value)
         && exists a :: IsAddress(e.lower, returned.value, a) && IsAddress(e.lower, wanted.text, a)
       case OneOf => Visible(returned.value) && exists a | a in wanted.values :: Agree(e, spec.field, returned.value, a)
       case OccurredWithin =>
         && Visible(returned.value) && e.parse(returned.value).Some?
         && 0 <= e.parse(returned.value).value - occurredAt
         && (e.parse(returned.value).value - occurredAt) as real <= 1000.0 * wanted.number
       case ProviderStatusIn => returned.value in wanted.values
       case OtherOperator(_) => false
  }

  /** What was returned counts against the rule; of `exists`, that nothing visible was returned. */
  ghost predicate Denied(e: Engine, spec: Spec, wanted: Expected, occurredAt: int, returned: Option<string>)
    requires Askable(spec, wanted)
  {
    match spec.operator
    case Exists => returned.None? || !Visible(returned.value)
    case NotEquals => returned.Some? && Visible(returned.value) && Agree(e, spec.field, returned.value, wanted.text)
    case OccurredWithin =>
      && returned.Some? && Visible(returned.value) && e.parse(returned.value).Some?
      && (|| e.parse(returned.value).value < occurredAt
          || (e.parse(returned.value).value - occurredAt) as real > 1000.0 * wanted.number)
    case ProviderStatusIn => returned.Some? && returned.value in {"bounced", "failed", "complained"}
    case _ => !Asked(e, spec, wanted, occurredAt, returned)
  }

  lemma {:induction false} AskableIsUsable(spec: Spec, wanted: Expected)
    ensures Askable(spec, wanted) <==> Usable(spec, wanted)
  {
    if wanted.Words? {
      VisibleIsTrimmed(wanted.text);
    }
    if wanted.Amount? && wanted.number >= 0.0 && wanted.number.Floor as real == wanted.number {
      assert IsSeconds(wanted.number, wanted.number.Floor);
    }
  }

  lemma {:induction false} WantedIsResolved(spec: Spec, ctx: Context, wanted: Expected)
    ensures Wanted(spec, ctx, wanted) <==> ResolveExpected(spec, ctx) == Some(wanted)
  {
    if ctx.correlationId.Some? { VisibleIsTrimmed(ctx.correlationId.value); }
    if ctx.emailRecipient.Some? { VisibleIsTrimmed(ctx.emailRecipient.value); }
  }

  /** A value that stands for what was returned meets or refutes the rule exactly when that is asked or denied. */
  lemma {:induction false} ReturnedDecides(e: Engine, spec: Spec, wanted: Expected, occurredAt: int, returned: Option<string>)
    requires Askable(spec, wanted) && Usable(spec, wanted)
    ensures Meets(e, spec, wanted, occurredAt, FromNullable(returned)) <==> Asked(e, spec, wanted, occurredAt, returned)
    ensures Refutes(e, spec, wanted, occurredAt, FromNullable(returned)) <==> Denied(e, spec, wanted, occurredAt, returned)
  {
    if returned.Some? {
      VisibleIsTrimmed(returned.value);
      if wanted.Words? {
        SameTextAgrees(e, spec.field, returned.value, wanted.text);
        SameAddress(e.lower, returned.value, wanted.text);
      } else if wanted.Listed? {
        forall a | a in wanted.values
          ensures SameText(e, spec.field, returned.value, a) <==> Agree(e, spec.field, returned.value, a)
        {
          SameTextAgrees(e, spec.field, returned.value, a);
        }
      }
    }
  }

  // ---- the observations ----

  /** Held by the connected account, where one is named. */
  ghost predicate Ours(account: Option<string>, id: string) {
    account.Some? && Visible(account.value) ==> id == account.value
  }

  /** In our account, and not the customer's own claim where the rule is mandatory. */
  ghost predicate RecordMayDecide(spec: Spec, ctx: Context, crm: Crm) {
    Ours(ctx.crmAccount, crm.accountId) && (spec.mandatory ==> crm.origin in {ProviderReadback, ProviderWebhook})
  }

  ghost predicate EventMayDecide(spec: Spec, ctx: Context, event: Email) {
    Ours(ctx.emailAccount, event.accountId) && (spec.mandatory ==> event.origin in {ProviderReadback, ProviderWebhook})
  }

  ghost predicate RecordSupports(e: Engine, spec: Spec, wanted: Expected, ctx: Context, crm: Crm)
    requires Askable(spec, wanted)
  {
    RecordMayDecide(spec, ctx, crm)
    && exists r | RecordReturns(crm, spec, r) :: Asked(e, spec, wanted, ctx.occurredAt, r)
  }

  ghost predicate EventSupports(e: Engine, spec: Spec, wanted: Expected, ctx: Context, event: Email)
    requires Askable(spec, wanted)
  {
    EventMayDecide(spec, ctx, event)
    && exists r | EventReturns(event, spec, r) :: Asked(e, spec, wanted, ctx.occurredAt, r)
  }

  /** A property that was not returned refutes nothing but that it exists. */
  ghost predicate RecordRefutes(e: Engine, spec: Spec, wanted: Expected, ctx: Context, crm: Crm)
    requires Askable(spec, wanted)
  {
    RecordMayDecide(spec, ctx, crm)
    && if spec.operator == Exists then forall r | RecordReturns(crm, spec, r) :: Denied(e, spec, wanted, ctx.occurredAt, r)
       else exists r | RecordReturns(crm, spec, r) :: Denied(e, spec, wanted, ctx.occurredAt, r)
  }

  ghost predicate EventRefutes(e: Engine, spec: Spec, wanted: Expected, ctx: Context, event: Email)
    requires Askable(spec, wanted)
  {
    EventMayDecide(spec, ctx, event)
    && exists r | EventReturns(event, spec, r) :: Denied(e, spec, wanted, ctx.occurredAt, r)
  }

  /** Some observation of the rule's source supports it. */
  ghost predicate Supports(e: Engine, spec: Spec, wanted: Expected, bundle: Bundle, ctx: Context)
    requires Askable(spec, wanted)
  {
    if spec.source == CrmSource then bundle.crm.Some? && RecordSupports(e, spec, wanted, ctx, bundle.crm.value)
    else exists event | event in bundle.emails :: EventSupports(e, spec, wanted, ctx, event)
  }

  /** Everything observed is a stranger's, or nothing supports the rule and something refutes it. */
  ghost predicate Counters(e: Engine, spec: Spec, wanted: Expected, bundle: Bundle, ctx: Context)
    requires Askable(spec, wanted)
  {
    if spec.source == CrmSource then
      && bundle.crm.Some?
      && (!Ours(ctx.crmAccount, bundle.crm.value.accountId) || RecordRefutes(e, spec, wanted, ctx, bundle.crm.value))
    else
      && bundle.emails != []
      && (|| (forall event | event in bundle.emails :: !Ours(ctx.emailAccount, event.accountId))
          || (&& (exists event | event in bundle.emails :: EventRefutes(e, spec, wanted, ctx, event))
              && forall event | event in bundle.emails :: !EventSupports(e, spec, wanted, ctx, event)))
  }

  ghost predicate NothingObserved(spec: Spec, bundle: Bundle) {
    if spec.source == CrmSource then bundle.crm == None else bundle.emails == []
  }

  /** The first gap of the rule's source. */
  ghost predicate FirstGap(spec: Spec, bundle: Bundle, gap: Gap) {
    exists i | 0 <= i < |bundle.gaps| ::
      bundle.gaps[i] == gap && gap.source == spec.source && forall j | 0 <= j < i :: bundle.gaps[j].source != spec.source
  }

  lemma {:induction false} OursIsPresent(account: Option<string>, id: string)
    ensures Ours(account, id) <==> (IsPresent(account) ==> id == account.value)
  {
    if account.Some? { VisibleIsTrimmed(account.value); }
  }

  lemma {:induction false} RecordMayDecideIfOwn(spec: Spec, ctx: Context, crm: Crm, c: Candidate)
    requires spec.source == CrmSource && c == FromCrm(crm, spec)
    ensures OwnAccount(spec, ctx, c) <==> Ours(ctx.crmAccount, crm.accountId)
    ensures RecordMayDecide(spec, ctx, crm) <==> OwnAccount(spec, ctx, c) && (spec.mandatory ==> c.origin != CustomerClaim)
  {
    OursIsPresent(ctx.crmAccount, crm.accountId);
  }

  lemma {:induction false} EventMayDecideIfOwn(spec: Spec, ctx: Context, event: Email, c: Candidate)
    requires spec.source == EmailSource && c == FromEmail(event, spec.field)
    ensures OwnAccount(spec, ctx, c) <==> Ours(ctx.emailAccount, event.accountId)
    ensures EventMayDecide(spec, ctx, event) <==> OwnAccount(spec, ctx, c) && (spec.mandatory ==> c.origin != CustomerClaim)
  {
    OursIsPresent(ctx.emailAccount, event.accountId);
  }

  lemma {:induction false} RecordBears(e: Engine, spec: Spec, wanted: Expected, ctx: Context, crm: Crm, v: Value)
    requires Askable(spec, wanted) && Usable(spec, wanted) && spec.source == CrmSource && v == CrmValue(crm, spec)
    ensures RecordSupports(e, spec, wanted, ctx, crm) <==>
      RecordMayDecide(spec, ctx, crm) && Meets(e, spec, wanted, ctx.occurredAt, v)
    ensures RecordRefutes(e, spec, wanted, ctx, crm) <==>
      RecordMayDecide(spec, ctx, crm) && Refutes(e, spec, wanted, ctx.occurredAt, v)
  {
    forall r
      ensures RecordReturns(crm, spec, r) <==> v == FromNullable(r)
      ensures v.NotReturned? ==> !RecordReturns(crm, spec, r)
    {
      RecordValue(crm, spec, r);
    }
    if !v.NotReturned? {
      var r := if v.Text? then Some(v.text) else None;
      assert forall x :: RecordReturns(crm, spec, x) <==> x == r;
      ReturnedDecides(e, spec, wanted, ctx.occurredAt, r);
    }
  }

  lemma {:induction false} EventBears(e: Engine, spec: Spec, wanted: Expected, ctx: Context, event: Email, v: Value)
    requires Askable(spec, wanted) && Usable(spec, wanted) && spec.source == EmailSource && v == EmailValue(event, spec.field)
    ensures EventSupports(e, spec, wanted, ctx, event) <==>
      EventMayDecide(spec, ctx, event) && Meets(e, spec, wanted, ctx.occurredAt, v)
    ensures EventRefutes(e, spec, wanted, ctx, event) <==>
      EventMayDecide(spec, ctx, event) && Refutes(e, spec, wanted, ctx.occurredAt, v)
  {
    forall r
      ensures EventReturns(event, spec, r) <==> v == FromNullable(r)
    {
      EventValue(event, spec, r);
    }
    EventValue(event, spec, None);
    var r := if v.Text? then Some(v.text) else None;
    assert forall x :: EventReturns(event, spec, x) <==> x == r;
    ReturnedDecides(e, spec, wanted, ctx.occurredAt, r);
  }

  lemma {:induction false} SupportsIsWitnessed(e: Engine, spec: Spec, wanted: Expected, bundle: Bundle, ctx: Context)
    requires Askable(spec, wanted) && Judgeable(spec, bundle, ctx) && ResolveExpected(spec, ctx) == Some(wanted)
    ensures Supports(e, spec, wanted, bundle, ctx) <==> Witnessed(e, spec, bundle, ctx)
  {
    if spec.source == CrmSource {
      if bundle.crm.Some? {
        var c := FromCrm(bundle.crm.value, spec);
        RecordMayDecideIfOwn(spec, ctx, bundle.crm.value, FromCrm(bundle.crm.value, spec));
        RecordBears(e, spec, wanted, ctx, bundle.crm.value, CrmValue(bundle.crm.value, spec));
        assert Supports(e, spec, wanted, bundle, ctx) <==> Witness(e, spec, bundle, ctx, c);
      }
    } else {
      forall event | event in bundle.emails
        ensures EventSupports(e, spec, wanted, ctx, event) <==> Witness(e, spec, bundle, ctx, FromEmail(event, spec.field))
      {
        EventMayDecideIfOwn(spec, ctx, event, FromEmail(event, spec.field));
        EventBears(e, spec, wanted, ctx, event, EmailValue(event, spec.field));
      }
    }
  }

  lemma {:induction false} CountersIsRefuted(e: Engine, spec: Spec, wanted: Expected, bundle: Bundle, ctx: Context)
    requires Askable(spec, wanted) && Judgeable(spec, bundle, ctx) && ResolveExpected(spec, ctx) == Some(wanted)
    ensures Counters(e, spec, wanted, bundle, ctx) <==> Refuted(e, spec, bundle, ctx)
  {
    SupportsIsWitnessed(e, spec, wanted, bundle, ctx);
    if spec.source == CrmSource {
      if bundle.crm.Some? {
        RecordMayDecideIfOwn(spec, ctx, bundle.crm.value, FromCrm(bundle.crm.value, spec));
        RecordBears(e, spec, wanted, ctx, bundle.crm.value, CrmValue(bundle.crm.value, spec));
        RecordSides(e, spec, wanted, bundle, ctx, FromCrm(bundle.crm.value, spec));
      }
    } else {
      forall event | event in bundle.emails
        ensures EventRefutes(e, spec, wanted, ctx, event) <==>
          var c := FromEmail(event, spec.field);
          Eligible(spec, bundle, ctx, c) && Refutes(e, spec, wanted, ctx.occurredAt, c.value)
        ensures OwnAccount(spec, ctx, FromEmail(event, spec.field)) <==> Ours(ctx.emailAccount, event.accountId)
      {
        EventMayDecideIfOwn(spec, ctx, event, FromEmail(event, spec.field));
        EventBears(e, spec, wanted, ctx, event, EmailValue(event, spec.field));
      }
    }
  }

  /** The one record of a CRM rule never both meets and refutes it. */
  lemma {:induction false} RecordSides(e: Engine, spec: Spec, wanted: Expected, bundle: Bundle, ctx: Context, c: Candidate)
    requires Judgeable(spec, bundle, ctx) && ResolveExpected(spec, ctx) == Some(wanted) && spec.source == CrmSource
    requires forall x :: Observed(spec, bundle, x) <==> x == c
    ensures AllForeign(spec, bundle, ctx) <==> !OwnAccount(spec, ctx, c)
    ensures SomeRefutes(e, spec, bundle, ctx) <==>
      Eligible(spec, bundle, ctx, c) && Refutes(e, spec, wanted, ctx.occurredAt, c.value)
    ensures SomeRefutes(e, spec, bundle, ctx) ==> !Witnessed(e, spec, bundle, ctx)
  {
  }

  lemma {:induction false} UnambiguousIsJudgeable(spec: Spec, wanted: Expected, bundle: Bundle, ctx: Context)
    requires ResolveExpected(spec, ctx) == Some(wanted)
    ensures Judgeable(spec, bundle, ctx) <==> Askable(spec, wanted) && Unambiguous(spec, bundle)
  {
    AskableIsUsable(spec, wanted);
  }

  /** This run has something to compare with, the rule can be acted on, its source is unambiguous, and an
      observation supports it. */
  ghost predicate RuleSupported(e: Engine, spec: Spec, bundle: Bundle, ctx: Context) {
    exists wanted | Wanted(spec, ctx, wanted) ::
      Askable(spec, wanted) && Unambiguous(spec, bundle) && Supports(e, spec, wanted, bundle, ctx)
  }

  ghost predicate RuleCountered(e: Engine, spec: Spec, bundle: Bundle, ctx: Context) {
    exists wanted | Wanted(spec, ctx, wanted) ::
      Askable(spec, wanted) && Unambiguous(spec, bundle) && Counters(e, spec, wanted, bundle, ctx)
  }

  /** Nothing was observed and the source's first report is that there is nothing there. */
  ghost predicate RuleMissing(spec: Spec, bundle: Bundle, ctx: Context) {
    exists wanted | Wanted(spec, ctx, wanted) ::
      && Askable(spec, wanted) && Unambiguous(spec, bundle) && NothingObserved(spec, bundle)
      && exists gap | FirstGap(spec, bundle, gap) :: gap.code == NotFound
  }

  lemma {:induction false} OnlyWanted(spec: Spec, ctx: Context, wanted: Expected)
    requires ResolveExpected(spec, ctx) == Some(wanted)
    ensures forall other :: Wanted(spec, ctx, other) <==> other == wanted
  {
    forall other
      ensures Wanted(spec, ctx, other) <==> other == wanted
    {
      WantedIsResolved(spec, ctx, other);
    }
  }

  lemma {:induction false} NothingWanted(spec: Spec, ctx: Context)
    requires ResolveExpected(spec, ctx) == None
    ensures forall other :: !Wanted(spec, ctx, other)
  {
    forall other
      ensures !Wanted(spec, ctx, other)
    {
      WantedIsResolved(spec, ctx, other);
    }
  }

  /** The rule read through its candidates, and read off the evidence, is the same. */
  lemma {:induction false} RuleMeaning(e: Engine, spec: Spec, bundle: Bundle, ctx: Context)
    ensures RuleSupported(e, spec, bundle, ctx) <==> Witnessed(e, spec, bundle, ctx)
    ensures RuleCountered(e, spec, bundle, ctx) <==> Refuted(e, spec, bundle, ctx)
    ensures RuleMissing(spec, bundle, ctx) <==> ConfirmedMissing(spec, bundle, ctx)
  {
    if ResolveExpected(spec, ctx).Some? {
      var wanted := ResolveExpected(spec, ctx).value;
      OnlyWanted(spec, ctx, wanted);
      UnambiguousIsJudgeable(spec, wanted, bundle, ctx);
      if Judgeable(spec, bundle, ctx) {
        SupportsIsWitnessed(e, spec, wanted, bundle, ctx);
        CountersIsRefuted(e, spec, wanted, bundle, ctx);
        NotFoundFirst(spec, bundle, ctx);
      }
    } else {
      NothingWanted(spec, ctx);
    }
  }

  /** What an assertion's verdict says about the evidence, exactly, for every rule, bundle and context. */
  lemma {:induction false} VerdictMeaning(e: Engine, spec: Spec, bundle: Bundle, ctx: Context)
    ensures var r := Assess(e, spec, bundle, ctx);
      && r.ruleId == spec.ruleId && r.mandatory == spec.mandatory
      && (r.status == Supported <==> RuleSupported(e, spec, bundle, ctx))
      && (r.status == Contradicted <==> RuleCountered(e, spec, bundle, ctx))
      && (r.reason in {RecordNotFound, EventNotObserved} <==> RuleMissing(spec, bundle, ctx))
      && r.status in {Supported, Contradicted, Unknown}
  {
    CandidateVerdict(e, spec, bundle, ctx);
    RuleMeaning(e, spec, bundle, ctx);
  }

  lemma {:induction false} NotFoundFirst(spec: Spec, bundle: Bundle, ctx: Context)
    requires Judgeable(spec, bundle, ctx)
    ensures ConfirmedMissing(spec, bundle, ctx) <==>
      NothingObserved(spec, bundle) && exists gap | FirstGap(spec, bundle, gap) :: gap.code == NotFound
  {
    if i :| 0 <= i < |bundle.gaps| && bundle.gaps[i].source == spec.source && bundle.gaps[i].code == NotFound
            && forall j | 0 <= j < i :: bundle.gaps[j].source != spec.source {
      assert FirstGap(spec, bundle, bundle.gaps[i]);
    }
  }
}
