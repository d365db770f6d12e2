/** One assertion against one evidence bundle. */
module Evaluate {
  import opened Text
  import opened Lists
  import opened Evidence

  /** What the platform supplies: toLowerCase and Date.parse (milliseconds, or not a date). */
  datatype Engine = Engine(lower: string -> string, parse: string -> Option<int>)

  /** The business event, the connected accounts and the values this run's own event carried. */
  datatype Context = Context(occurredAt: int, crmAccount: Option<string>, emailAccount: Option<string>,
                             correlationId: Option<string>, emailRecipient: Option<string>)

  datatype Candidate = Candidate(ref: Ref, origin: Origin, accountId: string, value: Value, at: string)

  const MAX_ASSERTIONS := 10

  // ---- texts ----

  predicate IsPresent(s: Option<string>) {
    s.Some? && Trim(s.value) != ""
  }

  predicate Present(v: Value) {
    v.Text? && Trim(v.text) != ""
  }

  function FromNullable(s: Option<string>): Value {
    if s.None? then Null else Text(s.value)
  }

  function StripQuotes(s: string): string {
    StripQuotesEnd(StripQuotesStart(s))
  }

  function StripQuotesStart(s: string): string {
    if s != "" && s[0] == '"' then StripQuotesStart(s[1..]) else s
  }

  function StripQuotesEnd(s: string): string {
    if s != "" && s[|s| - 1] == '"' then StripQuotesEnd(s[..|s| - 1]) else s
  }

  /** `Name <inner>` reduces to its inner part. */
  function Unangle(s: string): string {
    var open := LastIndexOfChar(s, '<');
    if s != "" && s[|s| - 1] == '>' && open >= 0 && '>' !in s[open + 1..|s| - 1] then s[open + 1..|s| - 1] else s
  }

  function Unwrap(raw: string): string {
    Trim(StripQuotes(Trim(Unangle(Trim(raw)))))
  }

  /** Both halves in lower case, the domain without one trailing dot. */
  function FoldAddress(lower: string -> string, s: string): string {
    var at := LastIndexOfChar(s, '@');
    if at <= 0 || at == |s| - 1 then lower(s)
    else
      var domain := s[at + 1..];
      lower(s[..at]) + "@" + lower(if domain[|domain| - 1] == '.' then domain[..|domain| - 1] else domain)
  }

  function NormaliseEmailAddress(lower: string -> string, raw: string): string {
    FoldAddress(lower, Unwrap(raw))
  }

  /** Address fields compare without case, every other field exactly, both without surrounding space. */
  predicate SameText(e: Engine, field: Field, a: string, b: string) {
    if field == RecordEmail || field == MessageRecipient then e.lower(Trim(a)) == e.lower(Trim(b))
    else Trim(a) == Trim(b)
  }

  function ParseInstant(e: Engine, v: Value): Option<int> {
    if Present(v) then e.parse(v.text) else None
  }

  // ---- the rule ----

  function Bound(ctx: Context, binding: Binding): Option<string> {
    if binding == BoundCorrelationId then ctx.correlationId else ctx.emailRecipient
  }

  /** What this run compares against, or nothing when its event did not carry the bound value. */
  function ResolveExpected(spec: Spec, ctx: Context): Option<Expected> {
    if spec.expectedFrom.None? then Some(spec.expected)
    else
      var bound := Bound(ctx, spec.expectedFrom.value);
      if IsPresent(bound) then Some(Words(bound.value)) else None
  }

  predicate IsCrmField(f: Field) {
    f.RecordId? || f.RecordEmail? || f.RecordCorrelationId? || f.RecordCreatedAt? || f.RecordProperty?
  }

  predicate IsEmailField(f: Field) {
    f.MessageId? || f.MessageRecipient? || f.MessageStatus? || f.MessageOccurredAt?
  }

  predicate CanBind(binding: Binding, f: Field) {
    if binding == BoundCorrelationId then f.RecordCorrelationId? || f.RecordProperty?
    else f.MessageRecipient? || f.RecordEmail?
  }

  predicate ExpectedFits(operator: Operator, field: Field, expected: Expected) {
    match operator
    case OccurredWithin => expected.Amount? && expected.number.Floor as real == expected.number && expected.number >= 0.0
    case OneOf => expected.Listed? && expected.values != []
    case ProviderStatusIn =>
      && expected.Listed? && expected.values != [] && field.MessageStatus?
      && forall s | s in expected.values :: s in EMAIL_STATUS
    case Exists => true
    case OtherOperator(_) => false
    case _ => expected.Words? && Trim(expected.text) != ""
  }

  /** The rule can be acted on as written. */
  predicate Usable(spec: Spec, expected: Expected) {
    && (IsCrmField(spec.field) || IsEmailField(spec.field))
    && (IsCrmField(spec.field) ==> spec.source == CrmSource)
    && (IsEmailField(spec.field) ==> spec.source == EmailSource)
    && (spec.field.RecordProperty? ==> spec.propertyName.Some?)
    && (spec.expectedFrom.Some? ==> && (spec.operator.Equals? || spec.operator.NormalisedEmailEquals?)
                                    && CanBind(spec.expectedFrom.value, spec.field))
    && ExpectedFits(spec.operator, spec.field, expected)
  }

  // ---- the evidence ----

  function CrmValue(crm: Crm, spec: Spec): Value {
    match spec.field
    case RecordId => Text(crm.recordId)
    case RecordEmail => FromNullable(crm.email)
    case RecordCorrelationId => FromNullable(crm.correlation)
    case RecordCreatedAt => FromNullable(crm.createdAt)
    case RecordProperty =>
      if spec.propertyName.Some? && spec.propertyName.value in crm.properties
      then FromNullable(crm.properties[spec.propertyName.value])
      else NotReturned
    case _ => NotReturned
  }

  function EmailValue(event: Email, field: Field): Value {
    match field
    case MessageId => Text(event.messageId)
    case MessageRecipient => FromNullable(event.recipient)
    case MessageStatus => Text(event.status)
    case MessageOccurredAt => Text(event.occurredAt)
    case _ => NotReturned
  }

  function FromCrm(crm: Crm, spec: Spec): Candidate {
    Candidate(CrmRef(crm.provider, crm.recordId), crm.origin, crm.accountId, CrmValue(crm, spec),
              if crm.createdAt.Some? then crm.createdAt.value else crm.observedAt)
  }

  function FromEmail(event: Email, field: Field): Candidate {
    Candidate(EmailRef(event.provider, event.messageId, event.status), event.origin, event.accountId,
              EmailValue(event, field), event.occurredAt)
  }

  function Candidates(bundle: Bundle, spec: Spec): seq<Candidate> {
    if spec.source == CrmSource then
      if bundle.crm.None? then [] else [FromCrm(bundle.crm.value, spec)]
    else
      Map(bundle.emails, (event: Email) => FromEmail(event, spec.field))
  }

  function GapsFor(bundle: Bundle, source: Source): seq<Gap> {
    Filter(bundle.gaps, (g: Gap) => g.source == source)
  }

  predicate Ambiguous(gaps: seq<Gap>) {
    exists g | g in gaps :: g.code.AmbiguousMatch?
  }

  function MapGapToReason(gap: Gap): Reason {
    match gap.code
    case NotFound => if gap.source == CrmSource then RecordNotFound else EventNotObserved
    case AmbiguousMatch => RecordAmbiguous
    case AuthExpired | PermissionMissing | UnsupportedCapability => ConnectionUnavailable
    case InvalidEvidence => EvidenceNotReturned
    case RateLimited | ProviderUnavailable => EvidenceUnavailable
    case OtherGap(_) => EvidenceUnavailable
  }

  function ConnectedAccount(spec: Spec, ctx: Context): Option<string> {
    if spec.source == CrmSource then ctx.crmAccount else ctx.emailAccount
  }

  // ---- one value against the operator ----

  const SUPPORTED := Verdict(Supported, Matched)

  function ApplyOperator(e: Engine, spec: Spec, value: Value, occurredAt: int, expected: Expected): Verdict
    requires Usable(spec, expected)
  {
    if spec.operator.Exists? then
      if Present(value) then SUPPORTED
      else Verdict(Contradicted, if spec.field.RecordCorrelationId? then CorrelationMissing else ValueMismatch)
    else if value.NotReturned? then Verdict(Unknown, EvidenceNotReturned)
    else
      match spec.operator
      case Equals =>
        if Present(value) && SameText(e, spec.field, value.text, expected.text) then SUPPORTED
        else Verdict(Contradicted, ValueMismatch)
      case NotEquals =>
        if !Present(value) then Verdict(Unknown, EvidenceNotReturned)
        else if SameText(e, spec.field, value.text, expected.text) then Verdict(Contradicted, ValueMismatch)
        else SUPPORTED
      case NormalisedEmailEquals =>
        if !Present(value) then Verdict(Contradicted, ValueMismatch)
        else if NormaliseEmailAddress(e.lower, value.text) == NormaliseEmailAddress(e.lower, expected.text) then SUPPORTED
        else Verdict(Contradicted, ValueMismatch)
      case OneOf =>
        if Present(value) && exists a | a in expected.values :: SameText(e, spec.field, value.text, a) then SUPPORTED
        else Verdict(Contradicted, ValueMismatch)
      case OccurredWithin =>
        var observed := ParseInstant(e, value);
        if observed.None? then Verdict(Unknown, EvidenceNotReturned)
        else
          var delta := observed.value - occurredAt;
          if delta < 0 then Verdict(Contradicted, OutsideTimeWindow)
          else if delta <= expected.number.Floor * 1000 then SUPPORTED
          else Verdict(Contradicted, OutsideTimeWindow)
      case _ => Verdict(Unknown, RuleUnsupported)
  }

  // ---- the whole observed ladder of an email ----

  function FirstWhere(cs: seq<Candidate>, wanted: Candidate -> bool): (r: Option<Candidate>)
    ensures r.Some? ==> r.value in cs && wanted(r.value)
    ensures r.None? ==> forall c | c in cs :: !wanted(c)
  {
    if cs == [] then None
    else if wanted(cs[0]) then Some(cs[0])
    else
      assert cs == [cs[0]] + cs[1..];
      FirstWhere(cs[1..], wanted)
  }

  predicate IsStatusIn(c: Candidate, statuses: set<string>) {
    c.value.Text? && c.value.text in statuses
  }

  function EvaluateStatusLadder(spec: Spec, cs: seq<Candidate>): (Verdict, Option<Candidate>)
    requires spec.expected.Listed?
  {
    var allowed := set s | s in spec.expected.values;
    var matched := FirstWhere(cs, c => IsStatusIn(c, allowed));
    if matched.Some? then (SUPPORTED, matched)
    else
      var requiresDelivery := exists s | s in allowed :: s in PROVING;
      var contradicting := FirstWhere(cs, c => IsStatusIn(c, CONTRADICTING));
      if requiresDelivery && contradicting.Some? then (Verdict(Contradicted, StatusNotReached), contradicting)
      else if !requiresDelivery && contradicting.Some? && contradicting.value.value.text !in allowed then
        (Verdict(Contradicted, StatusNotReached), contradicting)
      else
        (Verdict(Unknown, StatusNotReached), if cs == [] then None else Some(cs[|cs| - 1]))
  }

  // ---- the assertion ----

  function Build(spec: Spec, verdict: Verdict, observed: Option<string>, at: Option<string>, ref: Option<Ref>): Assessment {
    Assessment(spec.ruleId, spec.caption, spec.mandatory, verdict.status, verdict.reason, observed, at, ref)
  }

  function Bare(spec: Spec, reason: Reason): Assessment {
    Build(spec, Verdict(Unknown, reason), None, None, None)
  }

  function Shown(v: Value): Option<string> {
    if v.Text? then Some(v.text) else None
  }

  function From(spec: Spec, verdict: Verdict, c: Candidate): Assessment {
    Build(spec, verdict, Shown(c.value), Some(c.at), Some(c.ref))
  }

  function Rank(status: AssertionStatus): nat {
    match status
    case Supported => 3
    case Contradicted => 2
    case Unknown => 1
    case Pending => 0
  }

  /** The first of the highest-ranking verdicts. */
  ghost predicate IsBest(vs: seq<Verdict>, i: nat) {
    && i < |vs|
    && (forall j | 0 <= j < |vs| :: Rank(vs[j].status) <= Rank(vs[i].status))
    && forall j | 0 <= j < i :: Rank(vs[j].status) < Rank(vs[i].status)
  }

  function Best(vs: seq<Verdict>): (i: nat)
    requires vs != []
    ensures IsBest(vs, i)
  {
    if |vs| == 1 then 0
    else
      var b := Best(vs[..|vs| - 1]);
      if Rank(vs[|vs| - 1].status) > Rank(vs[b].status) then |vs| - 1 else b
  }

  lemma {:induction false} BestIsUnique(vs: seq<Verdict>, i: nat, j: nat)
    requires IsBest(vs, i) && IsBest(vs, j)
    ensures i == j
  {
    assert Rank(vs[i].status) == Rank(vs[j].status);
  }

  function Owned(cs: seq<Candidate>, account: Option<string>): seq<Candidate> {
    if IsPresent(account) then Filter(cs, (c: Candidate) => c.accountId == account.value) else cs
  }

  function Independent(cs: seq<Candidate>, mandatory: bool): seq<Candidate> {
    if mandatory then Filter(cs, (c: Candidate) => c.origin != CustomerClaim) else cs
  }

  function Verdicts(e: Engine, spec: Spec, cs: seq<Candidate>, occurredAt: int, expected: Expected): seq<Verdict>
    requires Usable(spec, expected)
  {
    seq(|cs|, i requires 0 <= i < |cs| => ApplyOperator(e, spec, cs[i].value, occurredAt, expected))
  }

  function Texts(cs: seq<Candidate>): seq<string> {
    if cs == [] then [] else Texts(cs[..|cs| - 1]) + if cs[|cs| - 1].value.Text? then [cs[|cs| - 1].value.text] else []
  }

  /** The operator over what passed every gate. */
  function Operate(e: Engine, spec: Spec, cs: seq<Candidate>, occurredAt: int, expected: Expected): Assessment
    requires Usable(spec, expected) && cs != []
    requires spec.operator.ProviderStatusIn? ==> spec.expected.Listed?
  {
    if spec.operator.ProviderStatusIn? then
      var (verdict, chosen) := EvaluateStatusLadder(spec, cs);
      var seen := Join(Texts(cs), ", ");
      Build(spec, verdict, if seen == "" then None else Some(seen),
            if chosen.None? then None else Some(chosen.value.at),
            if chosen.None? then None else Some(chosen.value.ref))
    else
      var vs := Verdicts(e, spec, cs, occurredAt, expected);
      From(spec, vs[Best(vs)], cs[Best(vs)])
  }

  /** What is left of the candidates decides; the gates come in a fixed order. */
  function Assess(e: Engine, spec: Spec, bundle: Bundle, ctx: Context): Assessment {
    var resolved := ResolveExpected(spec, ctx);
    if resolved.None? then Bare(spec, BindingUnavailable)
    else if !Usable(spec, resolved.value) then Bare(spec, RuleUnsupported)
    else
      var gaps := GapsFor(bundle, spec.source);
      var all := Candidates(bundle, spec);
      if Ambiguous(gaps) then Bare(spec, RecordAmbiguous)
      else if all == [] then Bare(spec, if gaps == [] then AwaitingEvidence else MapGapToReason(gaps[0]))
      else
        var owned := Owned(all, ConnectedAccount(spec, ctx));
        if owned == [] then From(spec, Verdict(Contradicted, RecordWrongAccount), all[0])
        else
          var independent := Independent(owned, spec.mandatory);
          if independent == [] then From(spec, Verdict(Unknown, ClaimNotIndependent), owned[0])
          else Operate(e, spec, independent, ctx.occurredAt, resolved.value)
  }

  method EvaluateOne(e: Engine, spec: Spec, bundle: Bundle, ctx: Context) returns (r: Assessment)
    ensures r == Assess(e, spec, bundle, ctx)
  {
    var resolved := ResolveExpected(spec, ctx);
    if resolved.None? { return Bare(spec, BindingUnavailable); }
    var expected := resolved.value;
    if !Usable(spec, expected) { return Bare(spec, RuleUnsupported); }
    var gaps := GapsFor(bundle, spec.source);
    if Ambiguous(gaps) { return Bare(spec, RecordAmbiguous); }
    var candidates := Candidates(bundle, spec);
    if candidates == [] {
      if gaps != [] { return Bare(spec, MapGapToReason(gaps[0])); }
      return Bare(spec, AwaitingEvidence);
    }
    var account := ConnectedAccount(spec, ctx);
    if IsPresent(account) {
      var owned := Filter(candidates, (c: Candidate) => c.accountId == account.value);
      if owned == [] { return From(spec, Verdict(Contradicted, RecordWrongAccount), candidates[0]); }
      candidates := owned;
    }
    if spec.mandatory {
      var independent := Filter(candidates, (c: Candidate) => c.origin != CustomerClaim);
      if independent == [] { return From(spec, Verdict(Unknown, ClaimNotIndependent), candidates[0]); }
      candidates := independent;
    }
    r := DecideFrom(e, spec, candidates, ctx.occurredAt, expected);
  }

  /** The loop over what is left: the first candidate with the strongest verdict. */
  method BestCandidate(apply: Value -> Verdict, candidates: seq<Candidate>) returns (best: nat)
    requires candidates != []
    ensures IsBest(seq(|candidates|, i requires 0 <= i < |candidates| => apply(candidates[i].value)), best)
  {
    ghost var vs := seq(|candidates|, i requires 0 <= i < |candidates| => apply(candidates[i].value));
    best := 0;
    var verdict := apply(candidates[0].value);
    for i := 1 to |candidates|
      invariant best < i && verdict == vs[best] && IsBest(vs[..i], best)
    {
      var next := apply(candidates[i].value);
      StillBest(vs, i, best);
      if Rank(next.status) > Rank(verdict.status) {
        best, verdict := i, next;
      }
    }
    assert vs[..|candidates|] == vs;
  }

  lemma {:induction false} StillBest(vs: seq<Verdict>, i: nat, best: nat)
    requires i < |vs| && IsBest(vs[..i], best)
    ensures IsBest(vs[..i + 1], if Rank(vs[i].status) > Rank(vs[best].status) then i else best)
  {
    var seen, more := vs[..i], vs[..i + 1];
    assert forall j | 0 <= j < i :: more[j] == seen[j] && Rank(seen[j].status) <= Rank(seen[best].status);
    assert more[i] == vs[i];
  }

  method DecideFrom(e: Engine, spec: Spec, candidates: seq<Candidate>, occurredAt: int, expected: Expected)
    returns (r: Assessment)
    requires Usable(spec, expected) && candidates != []
    requires spec.operator.ProviderStatusIn? ==> spec.expected.Listed?
    ensures r == Operate(e, spec, candidates, occurredAt, expected)
  {
    if spec.operator.ProviderStatusIn? {
      return Operate(e, spec, candidates, occurredAt, expected);
    }
    var apply := (v: Value) => ApplyOperator(e, spec, v, occurredAt, expected);
    var best := BestCandidate(apply, candidates);
    ghost var vs := Verdicts(e, spec, candidates, occurredAt, expected);
    assert vs == seq(|candidates|, i requires 0 <= i < |candidates| => apply(candidates[i].value));
    BestIsUnique(vs, best, Best(vs));
    r := From(spec, apply(candidates[best].value), candidates[best]);
  }
}
