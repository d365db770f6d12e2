# Verified model of the ITISYOU verification service

The repository checks, from independent evidence, that a customer's automation did what it claims. This project models
its decision logic, its money paths, its text codecs and its assistant turn in Dafny, and proves the promises its
documentation makes about them.

- **Verdicts** (`Evidence`, `Evaluate`, `Decide`, `Soundness`, `Comparing`, `Meaning`, `Citing`, `Outcome`, `Claims`,
  `Transitions`, `Schedule`, `Retry`, `Observing`): evidence passes account, origin and operator gates to assertion
  results, results become a run status, a decided run becomes an append-only chain of revisions, and two nested
  budgets bound what a run may cost. `Meaning`, `Citing` and `Outcome` read the verdicts back as statements about the
  fields of records and events; `Claims` says what a customer's own claims can and cannot change; `Observing` follows
  a run from tick to tick.
- **Billing** (`Calendar`, `CivilDates`, `Period`, `Entitlements`, `Books`, `Receipts`, `Allowances`, `BillingStore`,
  `Admission`, `Lifecycle`): Gregorian period boundaries with day clamping, unique-key indexes, conserved run
  allowances under redelivered events, the gate in front of the reservation, and runs that end after renewals.
- **Codecs and scanners** (`Text`, `Lists`, `CanonicalJson`, `JsonText`, `JsonFailures`, `ConstantTime`, `UrlGuard`,
  `Literals`, `Signatures`, `SignedRequests`, `Replacement`, `Redact`, `Fetch`, `Prompt`, `Context`): canonical JSON,
  IP literals, the signed header, credential scrubbing, guarded redirects and the fence around untrusted text.
- **Assistant turn** (`Ledger`, `Spending`, `Tools`, `Turn`, `Heard`): a bounded loop around an arbitrary model, a
  one-way taint flag, ordered tool gates and a reserve, settle, release ledger.

Each module follows one or two source files. Loops and objects that the source updates in place are methods and
classes, proved against specification functions; the lemmas are about those functions. Where a specification shares a
helper with the method, a further module says the result again without it: `Meaning` and `Comparing` read rules off
record fields, `JsonText` parses what is printed, `CivilDates` counts days, `Literals` and `SignedRequests` give the
grammars, `Heard` the messages. Calls into the platform are parameters: lower-casing and date parsing (`Engine`), the
keyed digest (`Mac`), URL resolution and the network peer, the model, the tool port, accounting faults, jitter and
every clock. Automatic induction is off throughout: an inductive proof calls itself.

Where code and documentation part, or a natural reading of the code fails, the code is modelled and the difference is
a lemma with its exact condition:

- `Redact.EndsExactlyWhen` and `Redact.StaysOutExactlyWhen`: which secrets the scrubbing loop ends for, and which a
  marker can bring back.
- `Claims.ClaimsChangeExactly`: a customer's claim never makes a run VERIFIED, but it can fail one or keep one from
  failing.
- `Spending.PaysItsOwnExactlyWhen`: a turn under a used request id can be free, or be paid out of what other requests
  hold.
- `Turn.TurnIsPaidOnce` and `Spending.LeftHoldStays`: a tool read that is rejected ends the turn without an answer and
  with its reservation neither settled nor released, for good.
- `Observing.CeilingHoldsExactlyWhen`: the ceiling on the external calls of a run holds for each source apart, without
  account look-ups; calls are counted as the connectors report them.
- `Outcome.AssumedAccessFails`: late evidence assumes that every source answered, which can fail a run over an outage.
- `Admission.HeldWorkIsRefusedExactlyWhen`: work already accepted is refused where a served workspace has no row.
- `Period.RenewalKeepsKeys` and `Period.EndOfJanuarySplits`: renewal from a day that the later month lacks changes
  keys.
- `Receipts.AbandonCrossesProviders`: giving a webhook event back is not scoped by provider.
- `Schedule.BackoffExceedsItsBound`: jitter is applied after the cap. The planner never gets there: it asks for
  backoffs only inside the observation budget, where `Schedule.PlannedBackoffBounds` holds.
- `ConstantTime.LongPrefixAgrees`: lengths compare modulo 2^32. This is a fact about the language's operators; the
  hosts the product runs on cannot hold strings that long, and `ConstantTime.ShortAgreementIsEquality` covers those
  they can.

`dafny verify dfyconfig.toml` checks the whole project.

## Model

| member | source | states |
|---|---|---|
| CanonicalJson.CanonicalAndInjective | packages/security/src/hash.ts:82-112 | two values print the same text exactly when they stand for the same JSON tree, that is, are equal up to object key order |
| JsonText.StringifiedReads | packages/security/src/hash.ts:82-112 | an independent reader of JSON text (RFC 8259) reads what is printed, to its end, as a tree the value stands for, and meets the members of every object in strictly ascending order: of two keys the first is a proper prefix of the other or has the smaller code where they first differ |
| JsonText.PrintReads | packages/security/src/hash.ts:86-112 | the same for every tree, followed by whatever may follow a value |
| JsonText.QuoteReads | packages/security/src/hash.ts:89-108 | a printed string is a string token of RFC 8259 section 7 that reads back as the string |
| JsonText.EscapeIsShortest | packages/security/src/hash.ts:89-108 | nothing is escaped that need not be, the two-character escapes are used where there are any, hexadecimal is in lower case |
| JsonFailures.FailureNamesItsCause | packages/security/src/hash.ts:82-112 | a failure to print names its cause: a path through elements and kept members leads from the value to a number that is not finite, to a bigint, or back to an object on the path |
| CanonicalJson.SucceedsExactlyOnTrees | packages/security/src/hash.ts:82-112 | printing succeeds exactly on the values that stand for a JSON tree: shared acyclic objects never raise, circular ones always do |
| CanonicalJson.PrintDelimits | packages/security/src/hash.ts:86-112 | the printed form of a tree is self-delimiting: two trees followed by any stopping text are equal as soon as the whole texts are |
| CanonicalJson.DenotesOne | packages/security/src/hash.ts:86-112 | a value stands for at most one tree |
| CanonicalJson.WriteDenoted | packages/security/src/hash.ts:86-112 | a value that stands for a tree prints that tree whatever acyclic set of objects is open around it |
| CanonicalJson.WrittenIsTree | packages/security/src/hash.ts:86-112 | whatever is printed is the printed form of a tree the value stands for |
| CanonicalJson.WriteValue | packages/security/src/hash.ts:86-112 | the recursive printer over one shared mutable set of open objects: it computes the specified text or error and leaves the set as it found it on every exit |
| CanonicalJson.WriteEach | packages/security/src/hash.ts:99-110 | the same for the elements of an array or the members of an object, stopping at the first error |
| ConstantTime.TimingSafeEqual | packages/security/src/hash.ts:47-61 | the accumulating comparison answers true exactly when the lengths agree as 32-bit words and every common character agrees |
| ConstantTime.WordsAreBitwise | packages/security/src/hash.ts:53-60 | the two word operations work digit by digit |
| ConstantTime.ShortAgreementIsEquality | packages/security/src/hash.ts:40-61 | below 2^32 characters that answer is string equality; two different strings can only pass when one is longer |
| ConstantTime.LongPrefixAgrees | packages/security/src/hash.ts:53-58 | from 2^32 characters on a string passes against its own prefix 2^32 shorter, so the length test is exact only below that |
| UrlGuard.ParseIpv4Loose | packages/connectors/src/url-guard.ts:100-132 | the part-reading and byte-pushing loops compute the specified IPv4 reading for every host |
| UrlGuard.LooseSpellings | packages/connectors/src/url-guard.ts:103-130 | one to four parts in decimal, octal or hexadecimal are read as the one number they write, in base 256 by place, and refused exactly when a part is too large for its place |
| UrlGuard.PartSpellings | packages/connectors/src/url-guard.ts:106-114 | a part in decimal and the same number in hexadecimal have the same value |
| Literals.PartIsRead | packages/connectors/src/url-guard.ts:100-116 | which texts are parts and what they say, by the radix they are written in: hexadecimal behind 0x, else octal behind 0, else decimal, at most 2^53 - 1 |
| Literals.BytesWrite | packages/connectors/src/url-guard.ts:126-131 | the four bytes of a number are its digits in base 256, the highest first |
| UrlGuard.DottedRoundTrip | packages/connectors/src/url-guard.ts:100-132 | dotted decimal printing of four bytes reads back as those bytes |
| UrlGuard.ParseIpv6Loose | packages/connectors/src/url-guard.ts:135-183 | the group loops compute the specified IPv6 reading for every host |
| UrlGuard.HexReads | packages/connectors/src/url-guard.ts:150-183 | text without a dotted quad is read as eight words exactly when it is eight hexadecimal groups or a `::` compression of at most seven (RFC 4291 section 2.2) |
| UrlGuard.Ipv6Reads | packages/connectors/src/url-guard.ts:135-183 | the same for every host, with the last two groups possibly a dotted quad |
| Literals.GroupIsRead | packages/connectors/src/url-guard.ts:156-176 | a group is one to four hexadecimal digits and stands for the word they write |
| Literals.QuadSays | packages/connectors/src/url-guard.ts:139-149 | a quad at the end becomes two groups of two bytes each |
| UrlGuard.RoundTrip | packages/connectors/src/url-guard.ts:135-183 | any eight words come back from their groups, with any run of zero words written as `::` or none |
| UrlGuard.RoundTripQuad | packages/connectors/src/url-guard.ts:135-183 | the same with the last two words printed as a dotted quad |
| UrlGuard.PrivateV4IsBlocks | packages/connectors/src/url-guard.ts:196-216 | the branch conditions on four bytes are exactly membership in a list of CIDR blocks, compared as numbers |
| UrlGuard.PrivateV6IsBlocks | packages/connectors/src/url-guard.ts:214-237 | an IPv6 address is judged by the IPv4 address it embeds when it embeds one, else exactly by membership in a list of blocks of its first 32 bits |
| UrlGuard.EmbeddingsAgree | packages/connectors/src/url-guard.ts:217-237 | an IPv6 address that embeds an IPv4 one as ::, ::ffff: or 64:ff9b:: is private exactly when the IPv4 address is |
| UrlGuard.SpellingsAgree | packages/connectors/src/url-guard.ts:185-238 | as text: the dotted quad alone and behind each prefix get the same answer |
| UrlGuard.LiteralShape | packages/connectors/src/url-guard.ts:185-187 | whatever parses has four bytes or eight 16-bit words |
| UrlGuard.ConnectorGuard | packages/connectors/src/url-guard.ts:255-282 | the connector options accept a URL exactly when it is https on port 443, carries no user information, names one of the three listed hosts and is no IP literal; each refusal exactly under its condition: user information, then scheme, then port, then private, other or unlisted host |
| UrlGuard.ListedHost | packages/connectors/src/url-guard.ts:240-249 | without subdomains a normalised host is allowed exactly when it is one of the listed names |
| UrlGuard.AllowedExactly | packages/connectors/src/url-guard.ts:240-249 | with any options: exactly when it is a listed name or, with subdomains, ends in a dot and one |
| Replacement.ReplacingShrinks | packages/connectors/src/http.ts:89 | for every reason a secret can have, replacing one occurrence in any surroundings lowers the measure that goes with it, although the text may grow |
| Replacement.ReasonFor | packages/connectors/src/http.ts:89 | every secret that is not part of the marker has such a reason |
| Redact.RedactSecrets | packages/connectors/src/http.ts:85-92 | the nested replacement loops end and leave each listed secret scrubbed in turn; no long listed secret that a marker cannot complete is in the result, nor the last one, whatever else is listed; with short secrets alone the text stays as it is |
| Redact.RedactOne | packages/connectors/src/http.ts:88-90 | the inner loop ends and computes the specified scrubbing; a secret of fewer than eight characters leaves the text as it is |
| Redact.ScrubStepByStep | packages/connectors/src/http.ts:85-92 | the scrubbing step by step: a text without the secret, or with a shorter one, is left alone; else the first occurrence becomes the marker and the rest goes on from there |
| Redact.ShortSecretsAreIgnored | packages/connectors/src/http.ts:87 | listed secrets of fewer than eight characters, the empty one included, can be struck from the list without a change |
| Redact.InertStep | packages/connectors/src/http.ts:89 | replacing the first occurrence, by a text that makes no new ones, leaves one occurrence fewer and the same final text |
| Redact.ScrubIsOnePass | packages/connectors/src/http.ts:89 | for a secret that no marker can complete the whole loop is one split-and-join pass |
| Redact.InertExactlyWhen | packages/connectors/src/http.ts:89 | putting a marker between any two texts makes no new occurrence of a secret exactly when the secret neither starts with the end of a marker, ends with the start of one, nor holds one |
| Redact.EndsExactlyWhen | packages/connectors/src/http.ts:89 | for every secret of eight or more characters the loop ends on every text exactly when the secret is not part of the marker |
| Redact.MarkerPartNeverLeaves | packages/connectors/src/http.ts:89 | a secret that is part of the marker is still there after any number of replacements |
| Redact.NothingListedRemains | packages/connectors/src/http.ts:85-92 | secret by secret: one that no marker can complete is not in the result, whatever other secrets are listed with it and in whatever order |
| Redact.StaysOutExactlyWhen | packages/connectors/src/http.ts:85-92 | the exact condition: a secret stays out of every result, over all texts and lists it is in, exactly when no marker can complete it |
| Redact.CompletableComesBack | packages/connectors/src/http.ts:85-92 | every completable secret has a text without it and a later secret whose replacement brings it in |
| Fetch.ReadBounded | packages/connectors/src/http.ts:151-196 | the body is returned whole exactly when it came to its end and neither its declared nor its real size is over the cap; otherwise it is refused for its size, its time or its error, never truncated |
| Fetch.FlattenKeepsOrder | packages/connectors/src/http.ts:165-195 | the body is its chunks in the order in which they came |
| Fetch.Follow | packages/connectors/src/http.ts:208-308 | over any guard and any peer: at most four requests, each passed the guard, each goes where the caller or an answer with one of the statuses 301, 302, 303, 307 and 308 pointed, and carries the credential exactly when one was given and its scheme, host name and effective port are those first asked for; the result is exactly what the reply to the last request says: an error, too late, served whole, too large, a body that broke off or ran out of time, no location, one redirect too many, or a refused target |
| Fetch.RedirectsAreSpent | packages/connectors/src/http.ts:285-305 | a peer that keeps redirecting to allowed targets makes one fetch send four requests |
| Fetch.Finish | packages/connectors/src/http.ts:265-283 | a reply that is no redirect is served whole, or refused as its body could not be read whole |
| Fetch.GuardedFetch | packages/connectors/src/http.ts:208-308 | with the connector options: every request on the wire is https to port 443 of a listed host, the credential is on exactly those to the scheme, host name and port first asked for, nothing is sent exactly for a refused URL, an answer is delivered whole from the last reply, and the result is exactly what that reply says |
| Calendar.DateOfIsValid | apps/app/src/billing/period.ts:73-107 | every day number is the number of the civil date it is read as (Gregorian rules, all years) |
| Calendar.DateOfDayNumber | apps/app/src/billing/period.ts:73-107 | every civil date is read back from its day number |
| CivilDates.DaysAreCounted | apps/app/src/billing/period.ts:73-107 | day 0 is 1 January 1970 and each day number is the date after the one before it, with the lengths of the months written out |
| CivilDates.DatesAreCivil | apps/app/src/billing/period.ts:73-107 | a day number is read as a date that its month has |
| Calendar.FirstOfMonthInYear | apps/app/src/billing/period.ts:101-107 | the closed form for the start of a month agrees with counting months one by one |
| Calendar.MonthsCarry | apps/app/src/billing/period.ts:101-107 | a month past December is one of the next year |
| Period.BoundaryIsPlain | apps/app/src/billing/period.ts:101-107 | for ordinary years the host-date computation of a boundary is the clamped day of that month at the anchor time |
| Period.BoundaryOfEarlyYear | apps/app/src/billing/period.ts:101-107 | in the years 0 to 99, which the host takes for 1900 to 1999, it is the boundary 1900 years later |
| Period.BoundaryGap | apps/app/src/billing/period.ts:101-107 | consecutive boundaries are 28 to 31 days apart |
| Period.BoundaryGrows | apps/app/src/billing/period.ts:101-107 | boundaries strictly increase, by at least 28 days |
| Period.BoundaryZero | apps/app/src/billing/period.ts:101-107 | boundary 0 is the period end itself |
| Period.PeriodIsUnique | apps/app/src/billing/period.ts:112-151 | at most one boundary brackets an instant |
| Period.PeriodBrackets | apps/app/src/billing/period.ts:112-151 | one boundary does |
| Period.FirstBoundaryAfter | apps/app/src/billing/period.ts:131-150 | the two searching loops end within their step bound; whatever they return brackets the instant, and from a close estimate the answer is one or two steps up |
| Period.AllowancePeriodKeyAt | apps/app/src/billing/period.ts:121-151 | for every ordinary instant and any period end the method returns a key whose digits read as year, month and day of the next renewal, the first instant after it on the anchor day, or the last of a shorter month, at the anchor time, and never the range error; in any year what it returns is the key of a bracketing boundary |
| Period.KeyAtNamesRenewal | apps/app/src/billing/period.ts:121-151 | the same of the specification function, with the boundary that is the renewal |
| Period.KeyNamesDate | apps/app/src/billing/period.ts:56-64 | an instant has a key exactly in the years 0 to 9999, and there its digits read as year, month and day of the UTC date |
| Period.IsoTimeReads | apps/app/src/billing/period.ts:56-64 | the time of day is printed in hours, minutes, seconds and milliseconds |
| Period.EstimateIsClose | apps/app/src/billing/period.ts:126-142 | the starting estimate is never more than two boundaries early and never late |
| Period.KeyAtIsDate | apps/app/src/billing/period.ts:121-151 | the key is the date of that boundary |
| Period.SameKeySamePeriod | apps/app/src/billing/period.ts:121-151 | two instants share a key exactly when they lie in the same period |
| Period.EntryPointsAgree | apps/app/src/billing/period.ts:37-44 | inside the paid period the key computed for an instant is the date of the period end |
| Period.RenewalKeepsKeys | apps/app/src/billing/period.ts:40-44 | a later period end gives every instant the same key as the earlier one exactly when the later month has the anchor day |
| Period.EndOfJanuarySplits | apps/app/src/billing/period.ts:73-107 | 31 January renewed to 28 February gives 29 January two keys |
| Period.DateKeyIsInjective | apps/app/src/billing/period.ts:56-64 | different dates have different keys |
| Prompt.StripControlCharacters | apps/app/src/assistant/prompt.ts:64-73 | the loop replaces exactly the control characters and keeps the length |
| Prompt.FenceHolds | apps/app/src/assistant/prompt.ts:53-107 | for every label, text and cap the open marker stands at index 0 and nowhere else and the close marker as the suffix and nowhere else |
| Prompt.NeutraliseUntouched | apps/app/src/assistant/prompt.ts:82-88 | text without markers and control characters passes unchanged |
| Context.NeutralisingChangesLittle | apps/app/src/assistant/prompt.ts:64-88 | every character keeps its place; only control characters become spaces and characters of a marker hyphens |
| Context.TruncateCaps | apps/app/src/assistant/prompt.ts:53-57 | a longer text is cut to its first characters and says in digits how many more there were |
| Prompt.BuildMessages | apps/app/src/assistant/prompt.ts:127-181 | the pushed message list is the specified layout and proposals are allowed exactly when no section is untrusted |
| Prompt.OneSystemMessage | apps/app/src/assistant/prompt.ts:127-181 | the system prompt is first, whole and the only system message, whatever history, sections and question say |
| Prompt.DataMessageMarkers | apps/app/src/assistant/prompt.ts:140-168 | the data message holds exactly one pair of markers for each untrusted section |
| Context.ContextIsLaidOut | apps/app/src/assistant/prompt.ts:127-181 | the messages one by one: the system prompt, our own sections, the fenced sections of others, the newest turns, the capped question |
| Context.HistoryIsNewest | apps/app/src/assistant/prompt.ts:127-135 | the history sent along is the newest twelve turns that are no system messages, in order, each capped |
| Context.DataMessageSays | apps/app/src/assistant/prompt.ts:97-168 | the message with the sections of others: its introduction, then one fence for each section, in order, with the label cleaned and the text neutralised and capped |
| Context.SummariesSay | apps/app/src/assistant/prompt.ts:142-155 | each of our own sections stands under its name, capped |
| Soundness.NormalisingNeverWidens | packages/domain/src/evaluate.ts:144-157 | two plain addresses normalise to the same text exactly when local part and domain agree without case, so tags and dots keep them apart |
| Comparing.NormalisedIsAddress | packages/domain/src/evaluate.ts:144-157 | what an address is normalised to, said by its parts: out of angle brackets and quotes, both halves around the last @ in lower case, the domain without a trailing dot |
| Comparing.SameTextAgrees | packages/domain/src/evaluate.ts:355-362 | two values are the same exactly when they agree without surrounding white space, address fields without case and every other field exactly |
| Text.TrimIsCore | packages/domain/src/evaluate.ts:355-362 | trimming takes away the white space around a text, all of it and nothing else |
| Text.VisibleIsTrimmed | packages/domain/src/evaluate.ts:194-196 | a value is present exactly when it holds something other than white space |
| Evaluate.EvaluateOne | packages/domain/src/evaluate.ts:570-690 | the gate sequence over reassigned candidates computes the specified assessment |
| Evaluate.BestCandidate | packages/domain/src/evaluate.ts:669-690 | the loop keeps the first candidate with the strongest verdict |
| Evaluate.DecideFrom | packages/domain/src/evaluate.ts:651-690 | ladder or best candidate: the assessment of what passed the gates |
| Soundness.OperatorMeaning | packages/domain/src/evaluate.ts:381-440 | for one value: SUPPORTED is meeting the operator, CONTRADICTED is refuting it, with an absent value neither except under `exists` |
| Soundness.LadderMeaning | packages/domain/src/evaluate.ts:534-568 | any allowed status supports, else any failure status contradicts, else unknown |
| Meaning.VerdictMeaning | packages/domain/src/evaluate.ts:570-690 | for every rule, bundle and context, over the fields of the records and events themselves: SUPPORTED exactly when the field the rule names holds, in a record or event of the connected account that is no claim on a mandatory rule, what this run asks for; CONTRADICTED exactly when everything observed is foreign, or such a field is against the rule and none is for it; authoritative absence exactly when nothing was observed and the first report is not-found; a rule that cannot be acted on, has nothing to compare with or has an ambiguous source is none of these |
| Meaning.RecordValue | packages/domain/src/evaluate.ts:198-217 | which field of a record each rule field names, and when nothing was returned |
| Meaning.EventValue | packages/domain/src/evaluate.ts:219-232 | which field of an event each rule field names |
| Meaning.WantedIsResolved | packages/domain/src/evaluate.ts:242-259 | what this run asks for: the literal, or what its event carried under the bound name, if anything visible |
| Meaning.AskableIsUsable | packages/domain/src/evaluate.ts:265-320 | which rules can be acted on: source, field, binding, operator and value together |
| Soundness.CandidateVerdict | packages/domain/src/evaluate.ts:570-690 | the same over the candidates that the evaluator collects |
| Citing.RecordIsCited | packages/domain/src/evaluate.ts:605-690 | an assertion about an observed record cites its locator, its creation time or else the time of observation, shows the field as returned, and gives the reason of the gate or operator that decided |
| Citing.EventIsCited | packages/domain/src/evaluate.ts:534-690 | an assertion about observed events cites the event that speaks for them (the first that supports, else the first that refutes, else the first or, of a status ladder, the last), with its reason |
| Citing.WithoutEvidence | packages/domain/src/evaluate.ts:570-597 | without something to judge an assertion is UNKNOWN, says why and cites nothing |
| Citing.NothingToCite | packages/domain/src/evaluate.ts:599-614 | with nothing observed it gives the reason that the first report stands for, or that evidence is awaited |
| Citing.GapReason | packages/domain/src/evaluate.ts:450-471 | the reason each kind of report stands for |
| Soundness.SupportedCitesItsWitness | packages/domain/src/evaluate.ts:651-690 | a supported assertion cites the locator and the provider timestamp of evidence that supports it |
| Decide.AssertEvaluableRules | packages/domain/src/evaluate.ts:696-729 | the checks with the growing set of seen ids refuse exactly empty, over-long, duplicate and all-optional rule sets, each with its own reason |
| Decide.EvaluateAssertions | packages/domain/src/evaluate.ts:735-742 | one assessment per rule in order, for evaluable rule sets only |
| Decide.DecisionTable | packages/domain/src/decide.ts:73-133 | VERIFIED exactly when every required result is supported; FAILED exactly when one is contradicted, or the deadline passed with working access and every open one is authoritatively absent; PENDING exactly inside the window with observations left; optional results never count |
| Decide.DecisionReasons | packages/domain/src/decide.ts:73-133 | the reason of every decision, each exactly under its condition |
| Decide.ReasonsFitStatuses | packages/domain/src/decide.ts:38-62 | each reason goes with one status |
| Decide.AccessWorksExactly | apps/app/src/scheduler/observe.ts:822-830 | access is taken to work exactly when every report says that there is nothing there |
| Outcome.RunMeaning | packages/domain/src/decide.ts:73-133 | the same table end to end, over the evidence instead of the results |
| Outcome.VerifiedIsSound | packages/domain/src/decide.ts:86-96 | a run is VERIFIED exactly when there is a required rule and each is supported: in a field of a record or event of its own unambiguous source, in the connected account and not claimed by the customer, stands what this run asks for |
| Claims.ClaimsCannotVerify | packages/domain/src/evaluate.ts:615-650 | a run is VERIFIED exactly when it is VERIFIED with all customer claims erased |
| Claims.ClaimsOnOneRule | packages/domain/src/evaluate.ts:605-650 | what claims do to a required rule, exactly: never support it; refute it alone exactly when only claims were observed and all are foreign; shield it exactly when all that is no claim is foreign and a claim is not; hide a confirmed absence exactly when only claims were observed and the first gap is not-found |
| Claims.ClaimsChangeExactly | packages/domain/src/decide.ts:80-132 | erasing all claims changes the run status exactly in two cases: from FAILED when claims alone refute a rule and nothing else would fail the run, and to FAILED when claims alone shield a rule or hide an absence after the deadline |
| Outcome.FailedIsSound | packages/domain/src/decide.ts:86-132 | a run is FAILED exactly when the evidence counters a required rule, or the deadline passed with working access and the required rules that nothing supports, of which there are some, all have nothing observed and a source that first reported not-found |
| Outcome.SilenceNeverFails | packages/domain/src/decide.ts:98-132 | no evidence and no not-found gap: the run is pending or unverified, never failed |
| Outcome.OutageNeverFails | apps/app/src/scheduler/observe.ts:822-830 | with the access flag as the scheduler computes it, while some source could not be asked a run is FAILED exactly when the evidence refutes a required rule |
| Outcome.AssumedAccessFails | packages/domain/src/transitions.ts:106-169 | what assuming access for late evidence gives up: the status differs exactly past the deadline, with a source that could not be asked, everything open confirmed missing and nothing refuted, and is then FAILED instead of UNVERIFIED |
| Claims.ForeignClaimFails | packages/domain/src/evaluate.ts:624-640 | a claimed record in another account fails the run; erasing it saves the run exactly when no other rule is refuted anyway and not everything open is missing past the deadline |
| Claims.ForeignClaimFailsAlone | packages/domain/src/evaluate.ts:624-640 | with that one rule alone the claim fails the run exactly unless the deadline passed, access works and the source reported nothing |
| Claims.OwnClaimRescues | packages/domain/src/evaluate.ts:642-665 | a claimed record that is not foreign keeps a run of one rule from FAILED exactly after the deadline, with working access and a not-found report |
| Outcome.EventOrderIsIrrelevant | packages/domain/src/evaluate.ts:669-675 | reordering or redelivering email events never changes the run status |
| Outcome.MoreEventsKeepSupport | packages/domain/src/evaluate.ts:534-568 | more email events never turn a supported assertion into anything else |
| Outcome.MoreEventsKeepVerified | packages/domain/src/evaluate.ts:669-675 | nor a verified run, at any later moment |
| Transitions.DecidedStays | packages/domain/src/transitions.ts:43-65 | over any legal event sequence a decided state never changes again and only late evidence may follow |
| Transitions.DecidedTraces | packages/domain/src/transitions.ts:43-65 | a run reaches a final status exactly by observations, then the one event that decides it, then late evidence only |
| Transitions.SameAsItself | packages/domain/src/transitions.ts:131-138 | the verdict comparison is reflexive exactly when results sharing a rule id agree |
| Transitions.SameVerdictsExactly | packages/domain/src/transitions.ts:131-138 | with distinct rule ids it is exact both ways: same rules, same verdicts |
| Transitions.LateEvidenceFollows | packages/domain/src/transitions.ts:119-194 | one application refuses exactly undecided runs, and a new revision has the next number, the right link, the same run, rules and deadline, the final status of the table and a real difference; it is a late observation exactly when made after the deadline, and a late completion exactly when some result's own provider timestamp is after it |
| Transitions.LateOutcomeExactly | packages/domain/src/transitions.ts:147-194 | each outcome exactly under its condition: undecided, no required result, the same status and verdicts, or else a revision as the table decides |
| Transitions.ChainStepByStep | packages/domain/src/transitions.ts:140-194 | a chain starts as the first revision alone, and each input adds what it makes of the last one, if anything |
| Transitions.ChainIsAppendOnly | packages/domain/src/transitions.ts:140-194 | later inputs only append revisions |
| Transitions.ChainIsAnAuditTrail | packages/domain/src/transitions.ts:147-194 | from a decided revision, over any inputs, every revision follows the one before it and none is pending |
| Transitions.ChainKeepsIdentity | packages/domain/src/transitions.ts:169-191 | numbers are consecutive from the first revision, whose run, rules, occurrence and deadline they all keep |
| Transitions.ReapplyingAddsNothing | packages/domain/src/transitions.ts:147-194 | the same results on the same side of the deadline with the same access add a revision exactly when two of them share a rule id and disagree |
| Transitions.EvaluatedIsDistinct | packages/domain/src/evaluate.ts:696-742 | results of an evaluable rule set have distinct ids, so two that share one agree |
| Transitions.VerifiedSurvivesMoreEvents | packages/domain/src/transitions.ts:147-194 | late email events never move a verified run to another status |
| Transitions.VerifiedSurvivesEveryArrival | packages/domain/src/transitions.ts:147-194 | nor do any number of late arrivals: every revision of the chain is verified |
| Schedule.ObservationPlanIsBounded | packages/domain/src/schedule.ts:129-176 | a planned observation is at least 24 seconds later than now, no earlier than Retry-After asks, within deadline plus 60 seconds, inside the budget and only for a live run without a terminal gap |
| Schedule.ObservationIsPlanned | packages/domain/src/schedule.ts:129-176 | and a live run inside its budget without a terminal gap is planned whenever the longest backoff and the delay asked for fit |
| Schedule.RetryPlanIsBounded | packages/domain/src/schedule.ts:197-217 | a retry is planned exactly while the inner budget lasts and the gap is not terminal, at least a second later and as late as asked |
| Schedule.BackoffExceedsItsBound | packages/domain/src/schedule.ts:27-28 | jitter is applied after the cap, so a wait exceeds the documented maximum exactly from the sixth observation on with a fraction of at least 241/480 |
| Schedule.PlannedBackoffBounds | packages/domain/src/schedule.ts:108-113 | inside the observation budget a backoff is 24 to 288 seconds |
| Schedule.ObservationPlanExactly | packages/domain/src/schedule.ts:100-176 | the whole answer: why there is no next observation, in order, or when it is, from the doubled wait spread by the jitter and the delay the provider asked for, whichever is longer |
| Schedule.RetryPlanExactly | packages/domain/src/schedule.ts:100-217 | the same inside an observation: after one, two and four seconds |
| Retry.WithTransportRetry | packages/connectors/src/retry.ts:69-104 | the unbounded loop ends after at most 1 + 3 attempts less those already used, at the first attempt that succeeded or may not be retried, with attempts spaced as planned |
| Observing.ObserveRun | apps/app/src/scheduler/observe.ts:303-415 | the driver: tick after tick, every source the rules name is read, the schedule is asked and the run is judged; over any sources, results, jitter and tick delays the run is resolved after at most four observations, its instants are those of a run and its calls are the sum over observations and sources |
| Observing.GatherEvidence | apps/app/src/scheduler/observe.ts:723-771 | the loop over the sources collects the gaps and the calls of all of them, each with a retry budget of its own |
| Observing.CallConnector | apps/app/src/scheduler/observe.ts:773-815 | one source: no call, one reported call, or the guarded read after an account look-up, with the gaps that come of it |
| Observing.TerminalGapStops | apps/app/src/scheduler/observe.ts:832-843 | the gap that drives the schedule is one that cannot be fixed by waiting exactly when some source reported such a gap |
| Observing.WorstGapExactly | apps/app/src/scheduler/observe.ts:832-843 | the driving gap is the first that waiting cannot fix, else the first that it may, else the first of all |
| Observing.ConcludesExactly | apps/app/src/scheduler/observe.ts:341-385 | an observation commits the schedule's answer to that gap and the table's to the results, with access as the reports say and no observations left where there is no next check |
| Observing.PendingIsPlanned | apps/app/src/scheduler/observe.ts:341-385 | a run is left pending exactly when a next check is planned, the deadline is ahead, and its required results neither all support nor contradict it: never pending without a next check |
| Observing.RunIsBounded | packages/domain/src/schedule.ts:34-43 | a run has at most four observations, each at least 24 seconds after the one before, planned no later than a minute past the deadline, and is not pending after the fourth |
| Observing.RunCostsAtMost | packages/domain/src/schedule.ts:34-43 | no run makes more calls than sixteen for each source and one for each account look-up; nor do the calls of any part of its sources |
| Observing.WorstRun | packages/domain/src/schedule.ts:34-43 | and for every set of sources and look-ups some run makes that many |
| Observing.RunSendsAtMost | packages/connectors/src/http.ts:208-308 | with redirects followed, a run sends at most 64 requests for each source and four for each look-up |
| Observing.WorstRunSends | packages/connectors/src/http.ts:208-308 | and some run sends that many |
| Observing.NothingLost | apps/app/src/scheduler/observe.ts:424-460 | the runs in which no tick is lost are the runs of the driver |
| Observing.LossyRunIsBounded | apps/app/src/scheduler/observe.ts:424-460 | each tick whose outcome is not recorded adds at most one observation to the four |
| Observing.LossyRunCostsAtMost | apps/app/src/scheduler/observe.ts:424-460 | with n such ticks the calls are at most four for each source in each of 4 + n observations, and the look-ups |
| Observing.CeilingHoldsExactlyWhen | packages/domain/src/schedule.ts:34-43 | the declared ceiling of 16 calls, counted as the connectors report them, covers every run exactly when the rules name at most one source and no observation looks up its account; with both sources and look-ups a run makes up to 36 |
| Signatures.ParseTimestampedHeader | packages/security/src/signatures.ts:60-84 | the part loop reads a header exactly when every part reads and one is the time, and returns that time and all v1 values in order |
| Signatures.SignedHeaderReads | packages/security/src/signatures.ts:60-84 | the reader inverts the printer exactly on times of at most fifteen digits |
| Signatures.PayloadInjective | packages/security/src/signatures.ts:97-99 | timestamp and body can be read back from the signed bytes |
| Signatures.ToHexInjective | packages/security/src/bytes.ts:68-72 | different byte strings have different hexadecimal forms |
| Signatures.VerifyRequest | packages/security/src/signatures.ts:139-165 | the candidate loop over constant-time comparisons computes the specified verdict, each failure with its own reason |
| Signatures.SignThenVerify | packages/security/src/signatures.ts:51-165 | for every key, body, digest, clock in milliseconds and integer timestamp our own header is accepted exactly when the timestamp has 1 to 15 digits and the clock is within the tolerance of its second |
| SignedRequests.VerdictExactly | packages/security/src/signatures.ts:51-165 | every verdict exactly under its condition, from the header's grammar, the clock in milliseconds and the digest in hexadecimal: no header, an unreadable one, no signature, in the future, stale, no match, or valid |
| SignedRequests.HeaderIsRead | packages/security/src/signatures.ts:60-84 | the header is read as that grammar: entries between commas without the white space around them, one time of one to fifteen digits, signatures in order, other names ignored |
| SignedRequests.PayloadIs | packages/security/src/signatures.ts:97-99 | the signed bytes are the digits of the time, a full stop and the body |
| SignedRequests.HexIs | packages/security/src/bytes.ts:68-72 | each byte becomes its two hexadecimal digits in lower case, the high one first |
| SignedRequests.SignedLetters | packages/security/src/signatures.ts:113-129 | our own header letter by letter |
| Signatures.AcceptedCarriesTheDigest | packages/security/src/signatures.ts:51-165 | any accepted header carries a v1 value that in lower case is the digest of this body at the header's own time, which is fresh by the clock in milliseconds |
| Signatures.ReuseNeedsCollision | packages/security/src/signatures.ts:97-99 | one v1 value that passes for two requests means equal requests or a digest collision |
| BillingStore.Store.RememberBillingCustomer | apps/app/src/billing/memory.ts:133-139 | binds a workspace once; no existing binding ever changes |
| BillingStore.Store.OpenOrderOnce | apps/app/src/billing/memory.ts:152-163 | the in-place order and key maps become exactly the specified book |
| BillingStore.Store.RecordOrderStatus | apps/app/src/billing/memory.ts:184-200 | patches only an order of this workspace |
| BillingStore.Store.RecordOrderPayment | apps/app/src/billing/memory.ts:213-217 | binds a payment to an order once |
| BillingStore.Store.OpenRefundOnce | apps/app/src/billing/memory.ts:315-324 | the same as for orders, with a mandatory key |
| BillingStore.Store.RecordRefundState | apps/app/src/billing/memory.ts:346-359 | patches only a refund of this workspace |
| BillingStore.Store.FindRefundByIdempotencyKey | apps/app/src/billing/memory.ts:331-337 | on an exact index it finds precisely this workspace's refund under the key and never another workspace's |
| BillingStore.Store.OpenAllowancePeriod | apps/app/src/billing/memory.ts:265-281 | opens or refreshes a row, refusing a key that is no date |
| BillingStore.Store.ReserveRun | apps/app/src/billing/memory.ts:283-290 | takes a unit when one is left, refusing a key that is no date |
| BillingStore.Store.SettleReservedRun | apps/app/src/billing/memory.ts:292-303 | turns a held unit into consumption |
| BillingStore.Store.ReleaseReservedRun | apps/app/src/billing/memory.ts:305-311 | hands a held unit back |
| BillingStore.Store.BeginWebhookProcessing | apps/app/src/billing/memory.ts:369-387 | claims an event once |
| BillingStore.Store.CompleteWebhookProcessing | apps/app/src/billing/memory.ts:389-397 | the loop over rows in insertion order completes the first with the receipt id |
| BillingStore.Store.AbandonWebhookProcessing | apps/app/src/billing/memory.ts:399-406 | the loop over rows in insertion order removes the first with the event id |
| Books.OpenKeepsIndex | apps/app/src/billing/memory.ts:152-163 | opening keeps the key index exact precisely when it does not overwrite a keyed record with one under another key |
| Books.HistoryKeepsIndex | apps/app/src/billing/memory.ts:152-200 | over every history with fresh ids the key index and the records agree both ways and a key names the same record for ever |
| Books.KeyNamesOne | apps/app/src/billing/memory.ts:152-163 | a key names at most one record |
| Books.LaterOpensReturnTheOriginal | apps/app/src/billing/memory.ts:152-163 | opening again under a used key, however much later, creates nothing and returns the original id |
| BillingStore.OrderIndexIsExact | apps/app/src/billing/memory.ts:152-217 | the store's own order operations form such a history from an empty store |
| BillingStore.RefundIndexIsExact | apps/app/src/billing/memory.ts:315-359 | and so do its refund operations |
| BillingStore.BindingsAreApart | apps/app/src/billing/memory.ts:75-76 | a binding belongs to one workspace and one environment |
| BillingStore.OrderCallsAct | apps/app/src/billing/memory.ts:184-217 | what each call does to an order, field by field: a payment is bound once, a status is moved in its own workspace, an absent patch keeps a field and a null one clears it |
| BillingStore.RefundCallsAct | apps/app/src/billing/memory.ts:346-359 | the same for refunds |
| Receipts.FreshOncePerAbandon | apps/app/src/billing/memory.ts:369-406 | two deliveries of one provider event are both fresh only if its event id was given back in between |
| Receipts.AbandonRemovesTheOldest | apps/app/src/billing/memory.ts:399-406 | giving back removes exactly the oldest claim with the event id |
| Receipts.AbandonCrossesProviders | apps/app/src/billing/memory.ts:399-406 | so with one event id used by two providers it frees the first provider's claim |
| Receipts.KeyNamesOneEvent | apps/app/src/billing/memory.ts:97 | a receipt key names one event of one provider |
| Allowances.AllowancesAreConserved | apps/app/src/billing/memory.ts:265-311 | over every interleaving of duplicated, late and reordered invoices and subscription writes with admitted, settled and released runs, at a constant plan: one row per workspace and date, granted = reserved + consumed + released, consumed + reserved within the limit |
| Allowances.SettleFindsItsUnit | apps/app/src/billing/memory.ts:292-311 | settling or releasing succeeds exactly while more units were granted than settled and released |
| Allowances.OpeningAgainKeepsCounters | apps/app/src/billing/events.ts:418-432 | opening again touches no counter and no other row, and repeating it changes nothing |
| Allowances.OpeningKeepsBound | apps/app/src/billing/memory.ts:265-277 | an open period becomes oversold exactly when its limit is lowered below what is used |
| Allowances.KeyIsInjective | apps/app/src/billing/memory.ts:88-96 | workspace and period can be read back from the row key |
| Allowances.KeySays | apps/app/src/billing/memory.ts:88-96 | a row key is the workspace, a bar and a date, and there is none for a period that is no date |
| Allowances.WritesRefineArithmetic | apps/app/src/billing/memory.ts:283-311 | on valid counters the store steps succeed and count exactly as reserve, consume and release do |
| Allowances.WritesExactly | apps/app/src/billing/memory.ts:265-311 | each write on an open row, field by field: a unit is reserved exactly when one is left, settled or released exactly when one is held, and opening again refreshes limit, plan version and time |
| Allowances.WritesWithoutRow | apps/app/src/billing/memory.ts:265-311 | without a row nothing is reserved, settled or released, and opening adds it |
| Allowances.OpeningEvents | apps/app/src/billing/events.ts:414-796 | a paid invoice and a write to an active or trialing subscription open the row of the workspace and the date of the period end; no other status does |
| Allowances.RunEvents | apps/app/src/billing/memory.ts:283-311 | a run moves one unit of the row of its workspace and period; a period that is no date moves nothing |
| Entitlements.UnitsAreConserved | apps/app/src/billing/entitlements.ts:94-130 | from a fresh period, over any sequence of take, spend and return: nothing oversold, counters valid, every unit accounted for |
| Entitlements.ReserveTakesTheNextUnit | apps/app/src/billing/entitlements.ts:58-98 | a unit is refused exactly when none is left, taking one lowers the remainder by one, releasing undoes it, and the admission decision agrees |
| Entitlements.StepsExactly | apps/app/src/billing/entitlements.ts:58-115 | every step counter by counter, with its failures; held work is always admitted, new runs while a unit is left |
| Entitlements.InvalidFails | apps/app/src/billing/entitlements.ts:76-177 | on counters that are no whole numbers of units every step fails, except that held work is admitted unseen |
| Admission.RecoveryNeverAdmits | apps/app/src/billing/policy.ts:148-264 | layering the payment-recovery window never admits what the subscription status does not, with exact suspension time and day count |
| Admission.WindowByStatus | apps/app/src/billing/policy.ts:148-234 | the recovery window status by status, from the period end or else the last update, for the days of grace, with the days that remain rounded up |
| Admission.GateAgreesWithReservation | apps/app/src/billing/admission.ts:92-186 | a new run is let through exactly when its workspace is served, its period is known, its counters are sound and reserving in that row succeeds |
| Admission.GrantedReservationSucceeds | apps/app/src/billing/admission.ts:143-176 | what the gate says to reserve can be reserved from the same state under the period it names |
| Admission.RefusalsAreExact | apps/app/src/billing/admission.ts:106-174 | each refusal and status code exactly under its condition: 402 about the account, 409 about a missing period or row, 429 about the allowance |
| Admission.ServedVerdict | apps/app/src/billing/admission.ts:106-186 | the whole verdict on a new run of a served workspace, from the period end, the key and the row |
| Admission.UnservedVerdict | apps/app/src/billing/admission.ts:106-216 | without service a new run is refused for the account, by its status, and held work goes on under the period it is in, if any |
| Admission.HeldWorkIsRefusedExactlyWhen | apps/app/src/billing/admission.ts:106-186 | retries, callbacks and recovery never reserve; they are refused, with 409, exactly where a served workspace has no period or no row for it, and admitted otherwise |
| Admission.SettleAfterRenewals | apps/app/src/billing/period.ts:40-44 | after renewals that keep the anchor day, settling under the later end addresses the row that was reserved and succeeds exactly while a unit is outstanding |
| Lifecycle.EveryRunSettles | apps/app/src/billing/period.ts:40-44 | over every history of openings, runs admitted under the end of their day and runs ended once under a later end, with day-keeping renewals between: every settle and release finds its unit |
| Lifecycle.StepKeepsMatch | apps/app/src/billing/memory.ts:265-311 | after each step every row holds exactly one reserved unit for each run admitted in it and not yet ended |
| Admission.AdmissionFindsThePaidRow | apps/app/src/billing/events.ts:418-432 | inside the paid period the admission key is the key the invoice opened |
| Ledger.Budget.Movement | apps/app/src/db/budget.ts:152-205 | entry and account change together under the movement's guard, or not at all; a known key moves nothing |
| Ledger.MoneyIsConserved | apps/app/src/db/budget.ts:87-205 | over any movements: reserved money is held, spent, committed or handed back, and an account inside its limit stays inside |
| Ledger.MovedOnce | apps/app/src/db/budget.ts:160-164 | a key moves money at most once, however often it is repeated |
| Ledger.MovementExactly | apps/app/src/db/budget.ts:87-205 | one movement field by field: known key, unknown account, too little, or moved; only a reservation draws on what is free, the rest on what is reserved |
| Spending.EstimateCovers | apps/app/src/assistant/budget.ts:38-55 | the estimate covers the exact price, input tokens at the input price and output tokens at the output price per million, and exceeds it by less than one unit; an amount below zero or that is no safe integer counts as zero |
| Spending.RefusedExactlyWhen | apps/app/src/assistant/budget.ts:58-160 | which refusal a paid call meets and which call is let through, each exactly under its condition on mode, account, caps, estimate and ledger |
| Spending.ReserveForCall | apps/app/src/assistant/budget.ts:91-160 | caps, then reservation, on the mutable ledger, refusing whenever accounting fails |
| Spending.ReconcileAfterCall | apps/app/src/assistant/budget.ts:186-224 | settle and release on the mutable ledger, with the actual cost clamped to what was held |
| Spending.ReleaseReservation | apps/app/src/assistant/budget.ts:227-247 | gives the whole reservation back |
| Spending.ReservationIsHeld | apps/app/src/assistant/budget.ts:91-160 | a granted reservation under a fresh id is really held and within both caps |
| Spending.ReconciliationBalances | apps/app/src/assistant/budget.ts:186-224 | when ledger calls succeed, settled + released is what was held and nothing stays held; what is settled is the cost, the whole hold when it is above that or no safe integer, and nothing when it is negative |
| Spending.TurnsStayWithinCap | apps/app/src/assistant/budget.ts:58-79 | any number of sequential turns under distinct fresh ids, ended in any way: exposure within the cumulative cap, the account spent exactly what the turns settled, and what stays held is exactly what turns that broke off had reserved |
| Spending.HoldIsReturnedExactlyWhen | apps/app/src/assistant/budget.ts:186-247 | whatever accounting calls throw, a turn under a fresh id leaves nothing held exactly when it was refused, had nothing to reserve, or came back to its reservation with every accounting call it needed |
| Spending.HoldIsReturnedWhateverComes | apps/app/src/assistant/budget.ts:91-247 | the form over all endings: with working accounting nothing is left held however the turn ends exactly when the caps or the balance refuse it or its estimate is zero |
| Spending.LeftHoldStays | apps/app/src/assistant/budget.ts:58-79 | the hold of a turn that broke off survives every later turn under ids of their own, and what they spend together is short of the cap by it |
| Spending.ReusedIdHoldsNothing | apps/app/src/assistant/budget.ts:132-155 | a second reservation under a used request id is granted without holding anything |
| Spending.ReusedIdIsFree | apps/app/src/assistant/budget.ts:186-224 | a repeat of a partly settled turn under its id charges nothing |
| Spending.ReusedIdDrawsOnOthers | apps/app/src/assistant/budget.ts:196-221 | a repeat of a released turn settles out of what other requests hold, failing exactly when that is too little |
| Spending.RepeatMovesExactly | apps/app/src/assistant/budget.ts:132-247 | what any repeat under a used id moves: it settles and hands back under the keys its earlier turns left unused, as far as the account holds enough, and reports a failure exactly when one of those is refused |
| Spending.RepeatDrainsOthers | apps/app/src/assistant/budget.ts:186-247 | the worst case: after a turn that used its whole reservation a repeat that uses less, or gets no answer, hands the difference back out of what others hold, and reports no failure |
| Spending.PaysItsOwnExactlyWhen | apps/app/src/assistant/budget.ts:91-247 | a turn leaves the account with its own cost spent and all other holds alone exactly when it neither moves again under a used id nor breaks off with something reserved under a fresh one |
| Spending.PaysItsOwnWhateverComes | apps/app/src/assistant/budget.ts:91-247 | the forms a caller can check before the call: over all turns that do not break off, the caps refuse it, its estimate is zero or its id has no reservation on record; over all turns, it is refused or its estimate is zero |
| Spending.TurnsPayTheirOwn | apps/app/src/assistant/budget.ts:91-247 | the same for the next turn after any history of turns, ids repeated at will |
| Tools.DispatchToolCall | apps/app/src/assistant/tools.ts:355-583 | unknown tool, taint, permission, arguments, scope, in that order: each outcome exactly under its condition, proposals only from server payloads; the call throws exactly when it passes its gates and its read is rejected, and otherwise one audit record is attempted |
| Tools.GatedByName | apps/app/src/assistant/tools.ts:380-583 | the gates tool by tool: what a call of each name comes to, with the name spelled |
| Turn.RunCalls | apps/app/src/assistant/service.ts:251-303 | the inner loop dispatches the calls in order while the allowance lasts and none throws, refuses exactly the rest, and moves the taint flag one way |
| Turn.Converse | apps/app/src/assistant/service.ts:208-304 | for every model and every tool: one or two model calls and at most 4 dispatches; each call shows the context and what came of every call asked for before it; a second call exactly after tool calls; it ends at a tool call that throws, or the dispatches and refusals account for every tool call |
| Heard.ModelHears | apps/app/src/assistant/service.ts:208-304 | each time it is called the model sees the context, then one message for each of the first four calls asked for so far, in order, and nothing else |
| Heard.DispatchIsTold | apps/app/src/assistant/service.ts:271-301 | what each of these says: the result of a read inside one fence behind a header with the call's name, one open marker right after the header, one close marker at the end, neither anywhere else, and the text between neutralised and capped; a proposal's payload as composed; a refusal as its reason code |
| Heard.AnswerReports | apps/app/src/assistant/service.ts:251-335 | an answer reports, in order, every proposal that was made, every refused call with its reason, and one refusal for each call past the fourth; the first four were dispatched |
| Heard.RepliesAddUp | apps/app/src/assistant/service.ts:236-250 | the tokens of both replies are added, and the answer is the text of the last |
| Heard.ActualCovers | apps/app/src/assistant/service.ts:306-323 | a turn is charged prompt tokens at the input price and completion tokens at the output price, rounded up |
| Heard.ContextCovers | apps/app/src/assistant/service.ts:165-184 | the estimate is a quarter of the characters of the context, rounded up, at the input price and the longest answer at the output price |
| Heard.StoppedExactlyWhen | apps/app/src/assistant/service.ts:97-191 | each reason for which a turn never reaches the model exactly under its condition; in free mode a model that the live catalogue does not show as free stops the turn and no paid one takes its place |
| Turn.NoProposalAfterReading | apps/app/src/assistant/service.ts:192-303 | a proposal in the log was made before any successful read, in a context without untrusted sections, and by an owner where required |
| Turn.Ask | apps/app/src/assistant/service.ts:89-335 | the whole turn: it stops without a model call exactly when it is blocked or the reservation is refused, for that reason; no model is called when off, without a key, in free mode unless the model is free, in paid mode unless it is named and priced; otherwise it talks, and throws with a tool call that throws, or answers what the last reply, the dispatches and the refusals say, or the provider failure; the ledger sees nothing, exactly one charge, or the reservation alone when it threw |
| Turn.ThrowsExactlyWhen | apps/app/src/assistant/service.ts:251-303 | the turn throws exactly when a tool call that the allowance reaches passes its gates and its read is rejected, the calls before it having been dispatched |
| Turn.FailedReadThrows | apps/app/src/assistant/service.ts:251-303 | and it does in every context: when the model asks for the summary first and the read is rejected |
| Turn.TurnIsPaidOnce | apps/app/src/assistant/service.ts:165-323 | under a fresh id with working accounting the account spends exactly the turn's cost and stays within the cap; it holds what it held before exactly unless the turn threw with something reserved, and then the whole estimate stays held |

## Left out

- Redact.RedactSecrets: requires that no listed secret of eight or more characters is part of the marker, because the source's loop does not end on a text that holds such a one.
- Period.AllowancePeriodKeyAt: the exact key, and that the search succeeds, is stated for instants in years 101 to 9998, because the host maps two-digit years and prints five-digit ones differently; date parsing is an input, and the host's clip at 8.64e15 ms is not modelled.
- Signatures.SignThenVerify: timestamps are whole numbers; the digest is any 32-byte function and UTF-8 encoding of a string body is not modelled, so the body is its bytes.
- Signatures.AcceptedCarriesTheDigest: assumes candidate values shorter than 2^32 characters, the range in which the comparison is exact.
- Transitions.ChainIsAnAuditTrail: instants are milliseconds, so an unreadable deadline in a stored revision is not modelled.
- Schedule.BackoffExceedsItsBound: seconds are exact rationals; the rounding of double arithmetic at the half-second boundary is not modelled.
- Observing.RunCostsAtMost: a call is one that the connector reports; what a connector that throws has spent is one call, as the source records it.
- Observing.ObserveRun: every tick is taken to record what it committed (`Observing.LossyRunCostsAtMost` drops that); leases and the database are not modelled, and the results of an observation are any.
- Turn.Ask: the list of tool names used, the model id and the wording of refusals are left out of the answer; a model call that throws is not modelled, since the shipped one turns every failure into an outcome.
- Spending.HoldIsReturnedExactlyWhen: an accounting call that throws is taken to have moved nothing; a write that commits and then loses its reply is not modelled.
- Spending.EstimateCovers: token counts and prices are exact; products beyond 2^53 lose precision in the source.
- Turn.Converse: the adapters' request and response shapes are left out; a model answers with text, token counts and tool calls, or fails.
- Tools.DispatchToolCall: argument validation, reads and payload composition are functions of the port; their field-by-field checks are single branches.
- CanonicalJson.CanonicalAndInjective: sparse arrays, lone surrogates and the UTF-16 order of characters beyond the basic plane are not modelled; a number is the token the host prints.
- Order ordering by creation time, checkout, refund decisions, subscription reconciliation and order transitions: they add only small independent tables.
- Stripe and Svix signature schemes: the first repeats the modelled scheme, the second differs in its encoding only.
- Expected-value descriptions, decision sentences, disclosures and page text.
- HTTP routing, D1 statements, provider clients, encryption, hashing, base64 and one-time passwords.
