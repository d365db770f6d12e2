/** Which observation an assessment cites, and what it shows of it. */
module Citing {
  import opened Text
  import opened Lists
  import opened Evidence
  import opened Evaluate
  import opened Decide
  import opened Soundness
  import opened Meaning

  // ---- why ----

  /** The reason a source's report stands for. */
  ghost predicate GapMeans(gap: Gap, reason: Reason) {
    || (gap.code == NotFound && gap.source == CrmSource && reason == RecordNotFound)
    || (gap.code == NotFound && gap.source == EmailSource && reason == EventNotObserved)
    || (gap.code == AmbiguousMatch && reason == RecordAmbiguous)
    || (gap.code in {AuthExpired, PermissionMissing, UnsupportedCapability} && reason == ConnectionUnavailable)
    || (gap.code == InvalidEvidence && reason == EvidenceNotReturned)
    || (gap.code in {RateLimited, ProviderUnavailable} && reason == EvidenceUnavailable)
    || (gap.code.OtherGap? && reason == EvidenceUnavailable)
  }

  lemma {:induction false} GapReason(gap: Gap, reason: Reason)
    ensures GapMeans(gap, reason) <==> reason == MapGapToReason(gap)
  {
  }

  /** Without something to judge an assessment is UNKNOWN, says why, and points at nothing. */
  ghost predicate UnknownBecause(r: Assessment, reason: Reason) {
    r.status == Unknown && r.reason == reason && r.observed == None && r.observedAt == None && r.evidence == None
  }

  lemma {:induction false} WithoutEvidence(e: Engine, spec: Spec, wanted: Expected, bundle: Bundle, ctx: Context)
    ensures var r := Assess(e, spec, bundle, ctx);
      && ((forall x :: !Wanted(spec, ctx, x)) ==> UnknownBecause(r, BindingUnavailable))
      && (Wanted(spec, ctx, wanted) && !Askable(spec, wanted) ==> UnknownBecause(r, RuleUnsupported))
      && (Wanted(spec, ctx, wanted) && Askable(spec, wanted) && !Unambiguous(spec, bundle) ==>
            UnknownBecause(r, RecordAmbiguous))
  {
    var resolved := ResolveExpected(spec, ctx);
    WantedIsResolved(spec, ctx, wanted);
    if resolved.Some? {
      WantedIsResolved(spec, ctx, resolved.value);
      AskableIsUsable(spec, resolved.value);
    }
    FirstGapMeaning(spec, bundle, GapsFor(bundle, spec.source));
  }

  lemma {:induction false} NothingToCite(e: Engine, spec: Spec, wanted: Expected, bundle: Bundle, ctx: Context)
    requires Wanted(spec, ctx, wanted) && Askable(spec, wanted) && Unambiguous(spec, bundle) && NothingObserved(spec, bundle)
    ensures var r := Assess(e, spec, bundle, ctx);
      && ((forall gap :: !FirstGap(spec, bundle, gap)) ==> UnknownBecause(r, AwaitingEvidence))
      && (forall gap, reason | FirstGap(spec, bundle, gap) && GapMeans(gap, reason) :: UnknownBecause(r, reason))
  {
    WantedIsResolved(spec, ctx, wanted);
    AskableIsUsable(spec, wanted);
    var gaps := GapsFor(bundle, spec.source);
    FirstGapMeaning(spec, bundle, gaps);
    CandidatesAreObserved(spec, bundle);
    BareForGaps(e, spec, wanted, bundle, ctx, gaps);
    FirstGapIsHead(spec, bundle, gaps);
    if gaps != [] {
      assert FirstGap(spec, bundle, gaps[0]);
      forall reason
        ensures GapMeans(gaps[0], reason) <==> reason == MapGapToReason(gaps[0])
      {
        GapReason(gaps[0], reason);
      }
    }
  }

  lemma {:induction false} BareForGaps(e: Engine, spec: Spec, wanted: Expected, bundle: Bundle, ctx: Context, gaps: seq<Gap>)
    requires ResolveExpected(spec, ctx) == Some(wanted) && Usable(spec, wanted)
    requires gaps == GapsFor(bundle, spec.source) && !Ambiguous(gaps) && Candidates(bundle, spec) == []
    ensures UnknownBecause(Assess(e, spec, bundle, ctx), if gaps == [] then AwaitingEvidence else MapGapToReason(gaps[0]))
  {
  }

  lemma {:induction false} FirstGapIsHead(spec: Spec, bundle: Bundle, gaps: seq<Gap>)
    requires gaps == GapsFor(bundle, spec.source)
    ensures forall gap :: FirstGap(spec, bundle, gap) <==> gaps != [] && gaps[0] == gap
  {
    var at := FilterPlaces(bundle.gaps, (g: Gap) => g.source == spec.source);
    if gaps != [] {
      assert forall j: nat | j < at[0] :: j !in at;
      assert FirstGap(spec, bundle, bundle.gaps[at[0]]);
    }
    forall gap | FirstGap(spec, bundle, gap)
      ensures gaps != [] && gaps[0] == gap
    {
      var i :| 0 <= i < |bundle.gaps| && bundle.gaps[i] == gap && gap.source == spec.source
               && forall j | 0 <= j < i :: bundle.gaps[j].source != spec.source;
      assert i in at;
    }
  }

  /** Why what may decide the rule decided it so. */
  ghost predicate DecidedBecause(spec: Spec, status: AssertionStatus, reason: Reason) {
    || (status == Supported && reason == Matched)
    || (status == Contradicted && spec.operator == ProviderStatusIn && reason == StatusNotReached)
    || (status == Contradicted && spec.operator == OccurredWithin && reason == OutsideTimeWindow)
    || (status == Contradicted && spec.operator == Exists && spec.field == RecordCorrelationId && reason == CorrelationMissing)
    || (status == Contradicted && spec.operator == Exists && spec.field != RecordCorrelationId && reason == ValueMismatch)
    || (status == Contradicted && spec.operator in {Equals, NotEquals, NormalisedEmailEquals, OneOf} && reason == ValueMismatch)
    || (status == Unknown && spec.operator == ProviderStatusIn && reason == StatusNotReached)
    || (status == Unknown && spec.operator != ProviderStatusIn && reason == EvidenceNotReturned)
  }

  lemma {:induction false} OperateBecause(e: Engine, spec: Spec, cs: seq<Candidate>, occurredAt: int, wanted: Expected)
    requires Askable(spec, wanted) && Usable(spec, wanted) && cs != [] && (spec.expectedFrom.None? ==> wanted == spec.expected)
    ensures var r := Operate(e, spec, cs, occurredAt, wanted); DecidedBecause(spec, r.status, r.reason)
  {
    if !spec.operator.ProviderStatusIn? {
      ApplyBecause(e, spec, cs[Best(Verdicts(e, spec, cs, occurredAt, wanted))].value, occurredAt, wanted);
    }
  }

  lemma {:induction false} ApplyBecause(e: Engine, spec: Spec, v: Value, occurredAt: int, wanted: Expected)
    requires Askable(spec, wanted) && Usable(spec, wanted) && !spec.operator.ProviderStatusIn?
    ensures var verdict := ApplyOperator(e, spec, v, occurredAt, wanted); DecidedBecause(spec, verdict.status, verdict.reason)
  {
  }

  // ---- the record ----

  /** The locator of the record, its creation time or else the time of observation, and the field as returned. */
  ghost predicate CitesRecord(r: Assessment, spec: Spec, crm: Crm) {
    && r.evidence == Some(CrmRef(crm.provider, crm.recordId))
    && r.observedAt == (if crm.createdAt.Some? then crm.createdAt else Some(crm.observedAt))
    && (forall returned | RecordReturns(crm, spec, returned) :: r.observed == returned)
    && ((forall returned :: !RecordReturns(crm, spec, returned)) ==> r.observed == None)
  }

  lemma {:induction false} ShowsRecord(r: Assessment, spec: Spec, crm: Crm, c: Candidate)
    requires c == FromCrm(crm, spec) && spec.source == CrmSource
    requires spec.field in {RecordId, RecordEmail, RecordCorrelationId, RecordCreatedAt, RecordProperty}
    requires r.evidence == Some(c.ref) && r.observedAt == Some(c.at) && r.observed == Shown(c.value)
    ensures CitesRecord(r, spec, crm)
  {
    forall returned
      ensures RecordReturns(crm, spec, returned) <==> CrmValue(crm, spec) == FromNullable(returned)
      ensures CrmValue(crm, spec).NotReturned? ==> !RecordReturns(crm, spec, returned)
    {
      RecordValue(crm, spec, returned);
    }
    RecordValue(crm, spec, None);
  }

  lemma {:induction false} OneCandidate(e: Engine, spec: Spec, wanted: Expected, bundle: Bundle, ctx: Context, c: Candidate)
    requires ResolveExpected(spec, ctx) == Some(wanted) && Judgeable(spec, bundle, ctx) && Askable(spec, wanted)
    requires Candidates(bundle, spec) == [c] && spec.source == CrmSource
    ensures var r := Assess(e, spec, bundle, ctx);
      && r.evidence == Some(c.ref) && r.observedAt == Some(c.at) && r.observed == Shown(c.value)
      && (!OwnAccount(spec, ctx, c) ==> r.reason == RecordWrongAccount)
      && (OwnAccount(spec, ctx, c) && spec.mandatory && c.origin == CustomerClaim ==>
            r.status == Unknown && r.reason == ClaimNotIndependent)
      && (OwnAccount(spec, ctx, c) && (spec.mandatory ==> c.origin != CustomerClaim) ==> DecidedBecause(spec, r.status, r.reason))
  {
    var owned := Owned([c], ConnectedAccount(spec, ctx));
    var pool := Independent(owned, spec.mandatory);
    OneLeft(spec, ctx, c);
    AssessBranches(e, spec, wanted, bundle, ctx, [c], owned, pool);
    if pool != [] {
      OperateBecause(e, spec, pool, ctx.occurredAt, wanted);
      OperateOne(e, spec, c, ctx.occurredAt, wanted);
    }
  }

  lemma {:induction false} OperateOne(e: Engine, spec: Spec, c: Candidate, occurredAt: int, wanted: Expected)
    requires Askable(spec, wanted) && Usable(spec, wanted) && spec.source == CrmSource
    ensures var r := Operate(e, spec, [c], occurredAt, wanted);
      r.evidence == Some(c.ref) && r.observedAt == Some(c.at) && r.observed == Shown(c.value)
  {
  }

  lemma {:induction false} OneLeft(spec: Spec, ctx: Context, c: Candidate)
    ensures var owned := Owned([c], ConnectedAccount(spec, ctx));
      && owned == (if OwnAccount(spec, ctx, c) then [c] else [])
      && Independent(owned, spec.mandatory) ==
           if OwnAccount(spec, ctx, c) && (spec.mandatory ==> c.origin != CustomerClaim) then [c] else []
  {
    var account := ConnectedAccount(spec, ctx);
    if IsPresent(account) {
      SingleFilter(c, (x: Candidate) => x.accountId == account.value);
    }
    SingleFilter(c, (x: Candidate) => x.origin != CustomerClaim);
  }

  lemma {:induction false} SingleFilter<T>(x: T, keep: T -> bool)
    ensures Filter([x], keep) == if keep(x) then [x] else []
  {
  }

  /** The three ways an observed rule ends. */
  lemma {:induction false} AssessBranches(e: Engine, spec: Spec, wanted: Expected, bundle: Bundle, ctx: Context,
                                          all: seq<Candidate>, owned: seq<Candidate>, pool: seq<Candidate>)
    requires ResolveExpected(spec, ctx) == Some(wanted) && Judgeable(spec, bundle, ctx)
    requires all == Candidates(bundle, spec) && all != []
    requires owned == Owned(all, ConnectedAccount(spec, ctx)) && pool == Independent(owned, spec.mandatory)
    ensures Assess(e, spec, bundle, ctx) ==
      if owned == [] then From(spec, Verdict(Contradicted, RecordWrongAccount), all[0])
      else if pool == [] then From(spec, Verdict(Unknown, ClaimNotIndependent), owned[0])
      else Operate(e, spec, pool, ctx.occurredAt, wanted)
  {
    FirstGapMeaning(spec, bundle, GapsFor(bundle, spec.source));
  }

  /** An observed record is cited whatever the verdict, and the reason says which gate or operator decided. */
  lemma {:induction false} RecordIsCited(e: Engine, spec: Spec, wanted: Expected, bundle: Bundle, ctx: Context, crm: Crm)
    requires Wanted(spec, ctx, wanted) && Askable(spec, wanted) && Unambiguous(spec, bundle)
    requires spec.source == CrmSource && bundle.crm == Some(crm)
    ensures var r := Assess(e, spec, bundle, ctx);
      && CitesRecord(r, spec, crm)
      && (!Ours(ctx.crmAccount, crm.accountId) ==> r.reason == RecordWrongAccount)
      && (Ours(ctx.crmAccount, crm.accountId) && !RecordMayDecide(spec, ctx, crm) ==>
            r.status == Unknown && r.reason == ClaimNotIndependent)
      && (RecordMayDecide(spec, ctx, crm) ==> DecidedBecause(spec, r.status, r.reason))
  {
    WantedIsResolved(spec, ctx, wanted);
    UnambiguousIsJudgeable(spec, wanted, bundle, ctx);
    var c := FromCrm(crm, spec);
    RecordMayDecideIfOwn(spec, ctx, crm, c);
    OneCandidate(e, spec, wanted, bundle, ctx, c);
    ShowsRecord(Assess(e, spec, bundle, ctx), spec, crm, c);
  }

  // ---- the events ----

  ghost predicate CitesEvent(r: Assessment, event: Email) {
    r.evidence == Some(EmailRef(event.provider, event.messageId, event.status)) && r.observedAt == Some(event.occurredAt)
  }

  /** Event i is the first for which p holds. */
  ghost predicate First(emails: seq<Email>, p: Email -> bool, i: nat) {
    i < |emails| && p(emails[i]) && forall j | 0 <= j < i :: !p(emails[j])
  }

  ghost predicate Last(emails: seq<Email>, p: Email -> bool, i: nat) {
    i < |emails| && p(emails[i]) && forall j | i < j < |emails| :: !p(emails[j])
  }

  ghost function Own(ctx: Context): Email -> bool {
    (event: Email) => Ours(ctx.emailAccount, event.accountId)
  }

  ghost function Deciding(spec: Spec, ctx: Context): Email -> bool {
    (event: Email) => EventMayDecide(spec, ctx, event)
  }

  ghost function Supporting(e: Engine, spec: Spec, wanted: Expected, ctx: Context): Email -> bool
    requires Askable(spec, wanted)
  {
    (event: Email) => EventSupports(e, spec, wanted, ctx, event)
  }

  ghost function Refuting(e: Engine, spec: Spec, wanted: Expected, ctx: Context): Email -> bool
    requires Askable(spec, wanted)
  {
    (event: Email) => EventRefutes(e, spec, wanted, ctx, event)
  }

  /** Event i speaks for the deciding events: the first that supports, else the first that refutes, else the first
      there is, of a status ladder the last. */
  ghost predicate SpeaksFor(deciding: Email -> bool, supporting: Email -> bool, refuting: Email -> bool, ladder: bool,
                            emails: seq<Email>, i: nat) {
    if exists event | event in emails :: supporting(event) then First(emails, supporting, i)
    else if exists event | event in emails :: refuting(event) then First(emails, refuting, i)
    else if ladder then Last(emails, deciding, i)
    else First(emails, deciding, i)
  }

  /** The statuses of the events that may decide, in their order. */
  ghost function DecidingStatuses(spec: Spec, ctx: Context, emails: seq<Email>): seq<string> {
    if emails == [] then []
    else
      var event := emails[|emails| - 1];
      DecidingStatuses(spec, ctx, emails[..|emails| - 1]) + if EventMayDecide(spec, ctx, event) then [event.status] else []
  }

  ghost function View(spec: Spec): Email -> Candidate {
    (event: Email) => FromEmail(event, spec.field)
  }

  /** cs are the candidates read off the events at the indices in `at`, which are all those where p holds. */
  ghost predicate Reads(view: Email -> Candidate, emails: seq<Email>, p: Email -> bool, cs: seq<Candidate>, at: seq<nat>) {
    && |at| == |cs| && Ascends(at)
    && (forall k | 0 <= k < |at| :: at[k] < |emails| && p(emails[at[k]]) && cs[k] == view(emails[at[k]]))
    && forall i: nat | i < |emails| && p(emails[i]) :: i in at
  }

  lemma {:induction false} AllRead(spec: Spec, bundle: Bundle, p: Email -> bool) returns (at: seq<nat>)
    requires spec.source == EmailSource && forall event :: p(event)
    ensures Reads(View(spec), bundle.emails, p, Candidates(bundle, spec), at)
  {
    at := seq(|bundle.emails|, i requires 0 <= i < |bundle.emails| => i);
    assert |Candidates(bundle, spec)| == |bundle.emails|;
    assert forall k | 0 <= k < |at| :: at[k] == k && Candidates(bundle, spec)[k] == FromEmail(bundle.emails[k], spec.field);
    assert forall i: nat | i < |bundle.emails| :: at[i] in at;
  }

  lemma {:induction false} FilteredRead(view: Email -> Candidate, emails: seq<Email>, p: Email -> bool, q: Email -> bool,
                                        cs: seq<Candidate>, keep: Candidate -> bool, at: seq<nat>) returns (at': seq<nat>)
    requires Reads(view, emails, p, cs, at)
    requires forall event :: q(event) <==> p(event) && keep(view(event))
    ensures Reads(view, emails, q, Filter(cs, keep), at')
  {
    var inner := FilterPlaces(cs, keep);
    at' := seq(|inner|, k requires 0 <= k < |inner| => at[inner[k]]);
    forall i: nat | i < |emails| && q(emails[i])
      ensures i in at'
    {
      var l := PlaceOfKept(view, emails, p, cs, keep, at, inner, i);
      assert at'[l] == i;
    }
  }

  lemma {:induction false} PlaceOfKept(view: Email -> Candidate, emails: seq<Email>, p: Email -> bool, cs: seq<Candidate>,
                                       keep: Candidate -> bool, at: seq<nat>, inner: seq<nat>, i: nat) returns (l: nat)
    requires Reads(view, emails, p, cs, at) && i < |emails| && p(emails[i]) && keep(view(emails[i]))
    requires forall k: nat | k < |cs| && keep(cs[k]) :: k in inner
    ensures l < |inner| && inner[l] < |at| && at[inner[l]] == i
  {
    var k: nat :| k < |at| && at[k] == i;
    l :| 0 <= l < |inner| && inner[l] == k;
  }

  lemma {:induction false} OwnedRead(spec: Spec, bundle: Bundle, ctx: Context, owned: seq<Candidate>) returns (at: seq<nat>)
    requires spec.source == EmailSource && owned == Owned(Candidates(bundle, spec), ConnectedAccount(spec, ctx))
    ensures Reads(View(spec), bundle.emails, Own(ctx), owned, at)
  {
    var any := (event: Email) => true;
    var all := AllRead(spec, bundle, any);
    var account := ctx.emailAccount;
    forall id {:trigger Ours(account, id)}
      ensures Ours(account, id) <==> (IsPresent(account) ==> id == account.value)
    {
      OursIsPresent(account, id);
    }
    if IsPresent(account) {
      at := FilteredRead(View(spec), bundle.emails, any, Own(ctx),
                         Candidates(bundle, spec), (c: Candidate) => c.accountId == account.value, all);
    } else {
      at := all;
    }
  }

  lemma {:induction false} PoolRead(spec: Spec, bundle: Bundle, ctx: Context, owned: seq<Candidate>, pool: seq<Candidate>)
    returns (at: seq<nat>)
    requires spec.source == EmailSource && owned == Owned(Candidates(bundle, spec), ConnectedAccount(spec, ctx))
    requires pool == Independent(owned, spec.mandatory)
    ensures Reads(View(spec), bundle.emails, Deciding(spec, ctx), pool, at)
  {
    var ours := OwnedRead(spec, bundle, ctx, owned);
    if spec.mandatory {
      at := FilteredRead(View(spec), bundle.emails, Own(ctx),
                         Deciding(spec, ctx), owned, (c: Candidate) => c.origin != CustomerClaim, ours);
    } else {
      at := ours;
    }
  }

  lemma {:induction false} PlaceBefore(at: seq<nat>, j: nat, k: nat) returns (l: nat)
    requires Ascends(at) && j in at && k < |at| && j < at[k]
    ensures l < k && at[l] == j
  {
    l :| 0 <= l < |at| && at[l] == j;
  }

  /** The first candidate of a kind is read off the first event of that kind. */
  lemma {:induction false} FirstRead(view: Email -> Candidate, emails: seq<Email>, p: Email -> bool, q: Email -> bool,
                                     cs: seq<Candidate>, at: seq<nat>, k: nat)
    requires Reads(view, emails, p, cs, at) && k < |cs|
    requires forall event | q(event) :: p(event)
    requires q(emails[at[k]]) && forall l | 0 <= l < k :: !q(emails[at[l]])
    ensures First(emails, q, at[k])
  {
    forall j: nat | j < at[k]
      ensures !q(emails[j])
    {
      if p(emails[j]) {
        var l := PlaceBefore(at, j, k);
      }
    }
  }

  lemma {:induction false} LastRead(view: Email -> Candidate, emails: seq<Email>, p: Email -> bool, cs: seq<Candidate>, at: seq<nat>)
    requires Reads(view, emails, p, cs, at) && cs != []
    ensures Last(emails, p, at[|at| - 1])
  {
    forall j | at[|at| - 1] < j < |emails|
      ensures !p(emails[j])
    {
      assert j !in at;
    }
  }

  lemma {:induction false} FirstWhereIsFirst(cs: seq<Candidate>, wanted: Candidate -> bool) returns (k: nat)
    requires FirstWhere(cs, wanted).Some?
    ensures k < |cs| && cs[k] == FirstWhere(cs, wanted).value && wanted(cs[k]) && forall l | 0 <= l < k :: !wanted(cs[l])
  {
    if wanted(cs[0]) {
      k := 0;
    } else {
      var rest := FirstWhereIsFirst(cs[1..], wanted);
      k := rest + 1;
    }
  }

  ghost function Meeting(e: Engine, spec: Spec, wanted: Expected, occurredAt: int): Candidate -> bool
    requires Usable(spec, wanted)
  {
    (c: Candidate) => Meets(e, spec, wanted, occurredAt, c.value)
  }

  ghost function Refusing(e: Engine, spec: Spec, wanted: Expected, occurredAt: int): Candidate -> bool
    requires Usable(spec, wanted)
  {
    (c: Candidate) => Refutes(e, spec, wanted, occurredAt, c.value)
  }

  /** Which candidate the operator chose: the first that meets, else the first that refutes, else the first, of a
      ladder the last. */
  ghost predicate Chooses(meets: Candidate -> bool, refutes: Candidate -> bool, ladder: bool, cs: seq<Candidate>, k: nat) {
    && k < |cs|
    && if exists c | c in cs :: meets(c) then meets(cs[k]) && forall l | 0 <= l < k :: !meets(cs[l])
       else if exists c | c in cs :: refutes(c) then refutes(cs[k]) && forall l | 0 <= l < k :: !refutes(cs[l])
       else k == if ladder then |cs| - 1 else 0
  }

  lemma {:induction false} BestChooses(e: Engine, spec: Spec, wanted: Expected, cs: seq<Candidate>, occurredAt: int,
                                       vs: seq<Verdict>, k: nat)
    requires Usable(spec, wanted) && !spec.operator.ProviderStatusIn? && cs != []
    requires vs == Verdicts(e, spec, cs, occurredAt, wanted) && IsBest(vs, k)
    ensures Chooses(Meeting(e, spec, wanted, occurredAt), Refusing(e, spec, wanted, occurredAt), false, cs, k)
  {
    BestMeaning(e, spec, cs, occurredAt, wanted, vs, k);
    forall l | 0 <= l < |cs|
      ensures vs[l].status == Supported <==> Meets(e, spec, wanted, occurredAt, cs[l].value)
      ensures vs[l].status == Contradicted <==> Refutes(e, spec, wanted, occurredAt, cs[l].value)
      ensures vs[l].status != Pending
      ensures l < k ==> Rank(vs[l].status) < Rank(vs[k].status)
    {
      OperatorMeaning(e, spec, cs[l].value, occurredAt, wanted);
    }
    assert k > 0 ==> Rank(vs[0].status) >= 1;
  }

  lemma {:induction false} LadderChooses(e: Engine, spec: Spec, cs: seq<Candidate>, occurredAt: int) returns (k: nat)
    requires Usable(spec, spec.expected) && spec.operator.ProviderStatusIn? && cs != []
    ensures Chooses(Meeting(e, spec, spec.expected, occurredAt), Refusing(e, spec, spec.expected, occurredAt), true, cs, k)
    ensures EvaluateStatusLadder(spec, cs).1 == Some(cs[k])
  {
    var allowed := set s | s in spec.expected.values;
    var meets := (c: Candidate) => IsStatusIn(c, allowed);
    var refutes := (c: Candidate) => IsStatusIn(c, CONTRADICTING);
    assert forall c: Candidate :: meets(c) <==> Meets(e, spec, spec.expected, occurredAt, c.value);
    assert forall c: Candidate :: refutes(c) <==> Refutes(e, spec, spec.expected, occurredAt, c.value);
    if FirstWhere(cs, meets).Some? {
      k := FirstWhereIsFirst(cs, meets);
    } else if FirstWhere(cs, refutes).Some? {
      k := FirstWhereIsFirst(cs, refutes);
    } else {
      k := |cs| - 1;
    }
  }

  lemma {:induction false} OperateCites(e: Engine, spec: Spec, wanted: Expected, cs: seq<Candidate>, occurredAt: int) returns (k: nat)
    requires Usable(spec, wanted) && cs != [] && (spec.expectedFrom.None? ==> wanted == spec.expected)
    ensures Chooses(Meeting(e, spec, wanted, occurredAt), Refusing(e, spec, wanted, occurredAt),
                    spec.operator.ProviderStatusIn?, cs, k)
    ensures var r := Operate(e, spec, cs, occurredAt, wanted);
      && r.evidence == Some(cs[k].ref) && r.observedAt == Some(cs[k].at)
      && r.observed == if spec.operator.ProviderStatusIn? then NoneIfEmpty(Join(Texts(cs), ", ")) else Shown(cs[k].value)
  {
    if spec.operator.ProviderStatusIn? {
      k := LadderChooses(e, spec, cs, occurredAt);
    } else {
      var vs := Verdicts(e, spec, cs, occurredAt, wanted);
      k := Best(vs);
      BestChooses(e, spec, wanted, cs, occurredAt, vs, k);
    }
  }

  ghost function NoneIfEmpty(s: string): Option<string> {
    if s == "" then None else Some(s)
  }

  /** The event behind the chosen candidate speaks for the events. */
  lemma {:induction false} ChosenSpeaks(view: Email -> Candidate, emails: seq<Email>, deciding: Email -> bool, supporting: Email -> bool,
                                        refuting: Email -> bool, meets: Candidate -> bool, refutes: Candidate -> bool,
                                        ladder: bool, cs: seq<Candidate>, at: seq<nat>, k: nat)
    requires Reads(view, emails, deciding, cs, at) && Chooses(meets, refutes, ladder, cs, k)
    requires forall event :: supporting(event) <==> deciding(event) && meets(view(event))
    requires forall event :: refuting(event) <==> deciding(event) && refutes(view(event))
    ensures SpeaksFor(deciding, supporting, refuting, ladder, emails, at[k])
  {
    KindRead(view, emails, deciding, supporting, cs, at, meets);
    KindRead(view, emails, deciding, refuting, cs, at, refutes);
    if exists c | c in cs :: meets(c) {
      FirstRead(view, emails, deciding, supporting, cs, at, k);
    } else if exists c | c in cs :: refutes(c) {
      FirstRead(view, emails, deciding, refuting, cs, at, k);
    } else if ladder {
      LastRead(view, emails, deciding, cs, at);
    } else {
      FirstRead(view, emails, deciding, deciding, cs, at, k);
    }
  }

  /** Some candidate is of a kind exactly when some event is. */
  lemma {:induction false} KindRead(view: Email -> Candidate, emails: seq<Email>, p: Email -> bool, q: Email -> bool,
                                    cs: seq<Candidate>, at: seq<nat>, kind: Candidate -> bool)
    requires Reads(view, emails, p, cs, at)
    requires forall event :: q(event) <==> p(event) && kind(view(event))
    ensures (exists c | c in cs :: kind(c)) <==> exists event | event in emails :: q(event)
  {
    if c :| c in cs && kind(c) {
      var k :| 0 <= k < |cs| && cs[k] == c;
      assert emails[at[k]] in emails;
    }
    if event :| event in emails && q(event) {
      var i: nat :| i < |emails| && emails[i] == event;
      var k :| 0 <= k < |at| && at[k] == i;
      assert cs[k] in cs;
    }
  }

  lemma {:induction false} FilterSnoc<T>(s: seq<T>, x: T, keep: T -> bool)
    ensures Filter(s + [x], keep) == Filter(s, keep) + if keep(x) then [x] else []
  {
    assert (s + [x])[..|s|] == s;
  }

  lemma {:induction false} TextsSnoc(cs: seq<Candidate>, c: Candidate)
    ensures Texts(cs + [c]) == Texts(cs) + if c.value.Text? then [c.value.text] else []
  {
    assert (cs + [c])[..|cs|] == cs;
  }

  lemma {:induction false} OwnedSnoc(account: Option<string>, all: seq<Candidate>, c: Candidate)
    ensures Owned(all + [c], account) == Owned(all, account) + if Ours(account, c.accountId) then [c] else []
  {
    OursIsPresent(account, c.accountId);
    if IsPresent(account) {
      FilterSnoc(all, c, (x: Candidate) => x.accountId == account.value);
    }
  }

  lemma {:induction false} IndependentSnoc(mandatory: bool, owned: seq<Candidate>, c: Candidate)
    ensures Independent(owned + [c], mandatory) ==
      Independent(owned, mandatory) + if mandatory ==> c.origin != CustomerClaim then [c] else []
  {
    FilterSnoc(owned, c, (x: Candidate) => x.origin != CustomerClaim);
  }

  lemma {:induction false} PoolSnoc(account: Option<string>, mandatory: bool, all: seq<Candidate>, c: Candidate)
    ensures Independent(Owned(all + [c], account), mandatory) ==
      Independent(Owned(all, account), mandatory)
      + if Ours(account, c.accountId) && (mandatory ==> c.origin != CustomerClaim) then [c] else []
  {
    OwnedSnoc(account, all, c);
    IndependentSnoc(mandatory, Owned(all, account), c);
    if !Ours(account, c.accountId) {
      assert Owned(all + [c], account) == Owned(all, account);
    }
  }

  lemma {:induction false} TextsAreStatuses(spec: Spec, ctx: Context, emails: seq<Email>)
    requires spec.source == EmailSource && spec.field == MessageStatus
    ensures Texts(Independent(Owned(Map(emails, View(spec)), ctx.emailAccount), spec.mandatory))
            == DecidingStatuses(spec, ctx, emails)
  {
    if emails != [] {
      var n := |emails| - 1;
      var init, event := emails[..n], emails[n];
      var c := FromEmail(event, spec.field);
      MapSnoc(emails, View(spec));
      PoolSnoc(ctx.emailAccount, spec.mandatory, Map(init, View(spec)), c);
      var pool := Independent(Owned(Map(init, View(spec)), ctx.emailAccount), spec.mandatory);
      TextsSnoc(pool, c);
      assert pool + [] == pool;
      TextsAreStatuses(spec, ctx, init);
    }
  }

  lemma {:induction false} MapSnoc<T, U>(s: seq<T>, f: T -> U)
    requires s != []
    ensures Map(s, f) == Map(s[..|s| - 1], f) + [f(s[|s| - 1])]
  {
  }

  // ---- the assessment of observed events ----

  lemma {:induction false} EventSides(e: Engine, spec: Spec, wanted: Expected, ctx: Context, event: Email)
    requires Askable(spec, wanted) && Usable(spec, wanted) && spec.source == EmailSource
    ensures Supporting(e, spec, wanted, ctx)(event) <==>
      Deciding(spec, ctx)(event) && Meeting(e, spec, wanted, ctx.occurredAt)(View(spec)(event))
    ensures Refuting(e, spec, wanted, ctx)(event) <==>
      Deciding(spec, ctx)(event) && Refusing(e, spec, wanted, ctx.occurredAt)(View(spec)(event))
  {
    EventBears(e, spec, wanted, ctx, event, EmailValue(event, spec.field));
  }

  lemma {:induction false} ShowsEvent(r: Assessment, spec: Spec, event: Email, c: Candidate)
    requires c == FromEmail(event, spec.field) && spec.field in {MessageId, MessageRecipient, MessageStatus, MessageOccurredAt}
    requires r.evidence == Some(c.ref) && r.observedAt == Some(c.at)
    ensures CitesEvent(r, event) && (r.observed == Shown(c.value) ==> EventReturns(event, spec, r.observed))
  {
    EventValue(event, spec, Shown(c.value));
    EventValue(event, spec, None);
  }

  /** What the assessment cites of the observed events, and why: the first event at all when every one is a stranger's,
      the first of ours when none of ours may decide, else the event that speaks for those that may. */
  lemma {:induction false} EventIsCited(e: Engine, spec: Spec, wanted: Expected, bundle: Bundle, ctx: Context)
    requires Wanted(spec, ctx, wanted) && Askable(spec, wanted) && Unambiguous(spec, bundle)
    requires spec.source == EmailSource && bundle.emails != []
    ensures var r := Assess(e, spec, bundle, ctx);
      exists i | 0 <= i < |bundle.emails| ::
        && CitesEvent(r, bundle.emails[i])
        && if forall event | event in bundle.emails :: !Own(ctx)(event) then
             i == 0 && r.reason == RecordWrongAccount && EventReturns(bundle.emails[i], spec, r.observed)
           else if forall event | event in bundle.emails :: !Deciding(spec, ctx)(event) then
             && First(bundle.emails, Own(ctx), i) && EventReturns(bundle.emails[i], spec, r.observed)
             && r.status == Unknown && r.reason == ClaimNotIndependent
           else
             && SpeaksFor(Deciding(spec, ctx), Supporting(e, spec, wanted, ctx), Refuting(e, spec, wanted, ctx),
                          spec.operator == ProviderStatusIn, bundle.emails, i)
             && DecidedBecause(spec, r.status, r.reason)
             && if spec.operator == ProviderStatusIn then
                  r.observed == NoneIfEmpty(Join(DecidingStatuses(spec, ctx, bundle.emails), ", "))
                else EventReturns(bundle.emails[i], spec, r.observed)
  {
    WantedIsResolved(spec, ctx, wanted);
    UnambiguousIsJudgeable(spec, wanted, bundle, ctx);
    var owned := Owned(Candidates(bundle, spec), ConnectedAccount(spec, ctx));
    var pool := Independent(owned, spec.mandatory);
    AssessBranches(e, spec, wanted, bundle, ctx, Candidates(bundle, spec), owned, pool);
    var ours := OwnedRead(spec, bundle, ctx, owned);
    var at := PoolRead(spec, bundle, ctx, owned, pool);
    var r := Assess(e, spec, bundle, ctx);
    NoneRead(View(spec), bundle.emails, Own(ctx), owned, ours);
    NoneRead(View(spec), bundle.emails, Deciding(spec, ctx), pool, at);
    if owned == [] {
      ShowsEvent(r, spec, bundle.emails[0], Candidates(bundle, spec)[0]);
    } else if pool == [] {
      FirstRead(View(spec), bundle.emails, Own(ctx), Own(ctx), owned, ours, 0);
      ShowsEvent(r, spec, bundle.emails[ours[0]], owned[0]);
    } else {
      var i := OperatedIsCited(e, spec, wanted, bundle, ctx, pool, at);
    }
  }

  /** Nothing was read exactly when no event is of the kind. */
  lemma {:induction false} NoneRead(view: Email -> Candidate, emails: seq<Email>, p: Email -> bool, cs: seq<Candidate>, at: seq<nat>)
    requires Reads(view, emails, p, cs, at)
    ensures cs == [] <==> forall event | event in emails :: !p(event)
  {
    if event :| event in emails && p(event) {
      var i: nat :| i < |emails| && emails[i] == event;
      assert i in at;
    }
    if cs != [] {
      assert emails[at[0]] in emails;
    }
  }

  lemma {:induction false} OperatedIsCited(e: Engine, spec: Spec, wanted: Expected, bundle: Bundle, ctx: Context,
                                           pool: seq<Candidate>, at: seq<nat>) returns (i: nat)
    requires ResolveExpected(spec, ctx) == Some(wanted) && Askable(spec, wanted) && Usable(spec, wanted)
    requires spec.source == EmailSource && pool != []
    requires pool == Independent(Owned(Candidates(bundle, spec), ConnectedAccount(spec, ctx)), spec.mandatory)
    requires Reads(View(spec), bundle.emails, Deciding(spec, ctx), pool, at)
    ensures i < |bundle.emails|
    ensures var r := Operate(e, spec, pool, ctx.occurredAt, wanted);
      && CitesEvent(r, bundle.emails[i])
      && SpeaksFor(Deciding(spec, ctx), Supporting(e, spec, wanted, ctx), Refuting(e, spec, wanted, ctx),
                   spec.operator == ProviderStatusIn, bundle.emails, i)
      && DecidedBecause(spec, r.status, r.reason)
      && if spec.operator == ProviderStatusIn then
           r.observed == NoneIfEmpty(Join(DecidingStatuses(spec, ctx, bundle.emails), ", "))
         else EventReturns(bundle.emails[i], spec, r.observed)
  {
    var k := OperateCites(e, spec, wanted, pool, ctx.occurredAt);
    i := at[k];
    forall event
      ensures Supporting(e, spec, wanted, ctx)(event) <==>
        Deciding(spec, ctx)(event) && Meeting(e, spec, wanted, ctx.occurredAt)(View(spec)(event))
      ensures Refuting(e, spec, wanted, ctx)(event) <==>
        Deciding(spec, ctx)(event) && Refusing(e, spec, wanted, ctx.occurredAt)(View(spec)(event))
    {
      EventSides(e, spec, wanted, ctx, event);
    }
    ChosenSpeaks(View(spec), bundle.emails, Deciding(spec, ctx), Supporting(e, spec, wanted, ctx), Refuting(e, spec, wanted, ctx),
                 Meeting(e, spec, wanted, ctx.occurredAt), Refusing(e, spec, wanted, ctx.occurredAt),
                 spec.operator.ProviderStatusIn?, pool, at, k);
    OperateBecause(e, spec, pool, ctx.occurredAt, wanted);
    ShowsEvent(Operate(e, spec, pool, ctx.occurredAt, wanted), spec, bundle.emails[i], pool[k]);
    if spec.operator == ProviderStatusIn {
      assert Candidates(bundle, spec) == Map(bundle.emails, View(spec));
      TextsAreStatuses(spec, ctx, bundle.emails);
    }
  }
}
