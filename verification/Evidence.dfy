/** The frozen contract between connectors, workflow rules and the evaluator. */
module Evidence {
  import opened Text

  datatype Origin = ProviderReadback | ProviderWebhook | CustomerClaim

  datatype Source = CrmSource | EmailSource

  /** The addressable fields; a rule set may name any other. */
  datatype Field =
    | RecordId | RecordEmail | RecordCorrelationId | RecordCreatedAt | RecordProperty
    | MessageId | MessageRecipient | MessageStatus | MessageOccurredAt
    | OtherField(name: string)

  datatype Operator =
    | Exists | Equals | NotEquals | NormalisedEmailEquals | OccurredWithin | ProviderStatusIn | OneOf
    | OtherOperator(name: string)

  datatype Binding = BoundCorrelationId | BoundEmailRecipient

  datatype Expected = Words(text: string) | Amount(number: real) | Listed(values: seq<string>)

  datatype Spec = Spec(ruleId: string, caption: string, source: Source, field: Field, propertyName: Option<string>,
                       operator: Operator, expected: Expected, expectedFrom: Option<Binding>, mandatory: bool)

  /** A field of an observation: not returned at all, returned empty, or returned. */
  datatype Value = NotReturned | Null | Text(text: string)

  datatype Crm = Crm(origin: Origin, provider: string, accountId: string, recordId: string, email: Option<string>,
                     correlation: Option<string>, createdAt: Option<string>, properties: map<string, Option<string>>,
                     observedAt: string)

  datatype Email = Email(origin: Origin, provider: string, accountId: string, messageId: string,
                         recipient: Option<string>, status: string, occurredAt: string)

  datatype GapCode =
    | NotFound | AmbiguousMatch | AuthExpired | PermissionMissing | UnsupportedCapability | InvalidEvidence
    | RateLimited | ProviderUnavailable | OtherGap(code: string)

  datatype Gap = Gap(source: Source, code: GapCode, retryable: bool)

  datatype Bundle = Bundle(crm: Option<Crm>, emails: seq<Email>, gaps: seq<Gap>)

  const EMAIL_STATUS := {"queued", "accepted", "delivered", "deferred", "bounced", "complained", "failed", "opened", "clicked"}
  const PROVING := {"delivered"}
  const CONTRADICTING := {"bounced", "failed", "complained"}

  datatype AssertionStatus = Pending | Supported | Contradicted | Unknown

  datatype Reason =
    | Matched | ValueMismatch | CorrelationMissing | OutsideTimeWindow | StatusNotReached | RecordNotFound
    | EventNotObserved | RecordAmbiguous | RecordWrongAccount | ConnectionUnavailable | EvidenceUnavailable
    | EvidenceNotReturned | ClaimNotIndependent | RuleUnsupported | BindingUnavailable | AwaitingEvidence

  datatype Verdict = Verdict(status: AssertionStatus, reason: Reason)

  /** Locator of the evidence that decided an assertion. */
  datatype Ref = CrmRef(provider: string, recordId: string) | EmailRef(provider: string, messageId: string, status: string)

  datatype Assessment = Assessment(ruleId: string, caption: string, mandatory: bool, status: AssertionStatus,
                                   reason: Reason, observed: Option<string>, observedAt: Option<string>,
                                   evidence: Option<Ref>)

  datatype RunStatus = RunPending | Verified | Failed | Unverified
}
