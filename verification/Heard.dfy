/** What reaches the model, said without the functions that compose it. */
module Heard {
  import opened Text
  import opened Prompt
  import opened Context
  import opened Tools
  import opened Turn
  import L = Ledger
  import S = Spending

  // ---- what came of a tool call ----

  ghost predicate StandsOnlyAt(s: string, p: string, at: int) {
    forall i :: MatchAt(s, p, i) <==> i == at
  }

  /** The body a fence shows of a text: neutralised and capped, so a text of at most 4000 characters without markers and
      control characters stands there as it is. */
  ghost predicate Shows(text: string, body: string) {
    && !Occurs(body, "<<<UNTRUSTED_DATA") && !Occurs(body, "END_UNTRUSTED_DATA>>>")
    && Capped(NeutraliseUntrusted(text), 4000, body)
    && (&& |text| <= 4000 && !Occurs(text, "<<<UNTRUSTED_DATA") && !Occurs(text, "END_UNTRUSTED_DATA>>>")
        && (forall i | 0 <= i < |text| :: !IsControl(text[i]))
        ==> body == text)
  }

  /** The message names the call and then holds the result inside one fence, which ends the message: one open marker
      right after the name, one close marker at the end, and neither anywhere else. */
  ghost predicate TellsRead(m: Message, name: string, result: string) {
    var header, opening := "[tool result: " + name + "]\n", "<<<UNTRUSTED_DATA name=\"tool_result_" + name + "\">\n";
    && m.role == User
    && StandsOnlyAt(m.content, "<<<UNTRUSTED_DATA", |header|)
    && StandsOnlyAt(m.content, "END_UNTRUSTED_DATA>>>", |m.content| - 21)
    && exists body | Shows(result, body) ::
         m.content == header + opening + body + "\nEND_UNTRUSTED_DATA>>>"
  }

  /** The message names the call and echoes the payload the server composed. */
  ghost predicate TellsProposal(m: Message, name: string, payload: string) {
    m.role == User && m.content == "[tool result: " + name + "]\n" + payload
  }

  ghost predicate Code(reason: Reason, word: string) {
    || (reason == UnknownTool && word == "UNKNOWN_TOOL")
    || (reason == InvalidArguments && word == "INVALID_ARGUMENTS")
    || (reason == NotPermitted && word == "NOT_PERMITTED")
    || (reason == ProposalsDisabled && word == "PROPOSALS_DISABLED_UNTRUSTED_CONTEXT")
    || (reason == BudgetExhausted && word == "TOOL_BUDGET_EXHAUSTED")
  }

  /** The message names the call and says in one word why it was refused. */
  ghost predicate TellsRefusal(m: Message, name: string, reason: Reason) {
    m.role == User && exists word | Code(reason, word) :: m.content == "[tool refused: " + name + "] " + word
  }

  /** What the dispatch came to, as the model is told. */
  ghost predicate Tells(m: Message, d: Dispatch) {
    match d.outcome
    case Executed(result, None) => TellsRead(m, d.call.name, result)
    case Executed(result, Some(_)) => TellsProposal(m, d.call.name, result)
    case Refused(reason) => TellsRefusal(m, d.call.name, reason)
    case Threw => false
  }

  ghost predicate IsReadName(name: string) {
    name == "get_summary" || name == "list_incidents" || name == "explain_run"
  }

  lemma {:induction false} BodyShows(text: string)
    ensures Shows(text, Truncate(NeutraliseUntrusted(text), 4000))
  {
    NeutralisedBodyIsFree(text, FENCE_OPEN);
    NeutralisedBodyIsFree(text, FENCE_CLOSE);
    TruncateKeepsFree(NeutraliseUntrusted(text), 4000, FENCE_OPEN);
    TruncateKeepsFree(NeutraliseUntrusted(text), 4000, FENCE_CLOSE);
    TruncateCaps(NeutraliseUntrusted(text), 4000);
    if |text| <= 4000 && !Occurs(text, FENCE_OPEN) && !Occurs(text, FENCE_CLOSE)
       && forall i | 0 <= i < |text| :: !IsControl(text[i]) {
      NeutraliseUntouched(text);
    }
  }

  lemma {:induction false} LabelIsKept(name: string)
    requires |name| <= 60 && forall i | 0 <= i < |name| :: LabelChar(name[i])
    ensures SafeLabel(Some(name)) == name
  {
  }

  lemma {:induction false} ReadTag(name: string, tag: string)
    requires IsReadName(name) && tag == "tool_result_" + name
    ensures SafeLabel(Some(tag)) == tag
    ensures '<' !in name && '>' !in name
  {
    LabelIsKept(tag);
  }

  /** A header line without angle brackets in front of a fence moves its markers and adds none. */
  lemma {:induction false} FenceAfterLine(line: string, fence: string, p: string, at: int, i: int)
    requires IsMarker(p) && '<' !in line && '>' !in line && StandsOnlyAt(fence, p, at)
    ensures MatchAt(line + ['\n'] + fence, p, i) <==> i == |line| + 1 + at
  {
    MatchAround(line, '\n', fence, p, i);
    FreeWithoutBrackets(line, p);
  }

  lemma {:induction false} ReadIsTold(call: ToolCall, result: string)
    requires IsReadName(call.name)
    ensures TellsRead(Told(call, Executed(result, None)), call.name, result)
  {
    var m := Told(call, Executed(result, None));
    var tag := "tool_result_" + call.name;
    var header, opening := "[tool result: " + call.name + "]\n", "<<<UNTRUSTED_DATA name=\"tool_result_" + call.name + "\">\n";
    var fence := FenceUntrusted(Some(tag), result, MAX_TOOL_RESULT_CHARS);
    ReadTag(call.name, tag);
    TagIsFenced(m, call.name, tag, result, header, opening, Truncate(NeutraliseUntrusted(result), MAX_TOOL_RESULT_CHARS), fence);
  }

  lemma {:induction false} TagIsFenced(m: Message, name: string, tag: string, result: string, header: string, opening: string,
                                       body: string, fence: string)
    requires m == Message(User, header + fence) && '<' !in name && '>' !in name
    requires header == "[tool result: " + name + "]\n"
    requires tag == "tool_result_" + name && SafeLabel(Some(tag)) == tag
    requires opening == "<<<UNTRUSTED_DATA name=\"tool_result_" + name + "\">\n"
    requires body == Truncate(NeutraliseUntrusted(result), MAX_TOOL_RESULT_CHARS)
    requires fence == FenceUntrusted(Some(tag), result, MAX_TOOL_RESULT_CHARS)
    ensures TellsRead(m, name, result)
  {
    BodyShows(result);
    FenceParts(name, tag, result, opening, body, fence);
    FenceStands(tag, result, fence);
    HeaderLine(name, header);
    MarkersAfterLine("[tool result: " + name + "]", header, fence, m.content);
    Joined(header, opening, body, fence, m.content);
    Assembled(m, name, result, header, opening, body);
  }

  lemma {:induction false} HeaderLine(name: string, header: string)
    requires header == "[tool result: " + name + "]\n" && '<' !in name && '>' !in name
    ensures header == "[tool result: " + name + "]" + "\n"
    ensures '<' !in "[tool result: " + name + "]" && '>' !in "[tool result: " + name + "]"
  {
  }

  lemma {:induction false} Joined(header: string, opening: string, body: string, fence: string, content: string)
    requires fence == opening + body + "\nEND_UNTRUSTED_DATA>>>" && content == header + fence
    ensures content == header + opening + body + "\nEND_UNTRUSTED_DATA>>>"
  {
  }

  lemma {:induction false} Assembled(m: Message, name: string, result: string, header: string, opening: string, body: string)
    requires header == "[tool result: " + name + "]\n" && m.role == User && Shows(result, body)
    requires opening == "<<<UNTRUSTED_DATA name=\"tool_result_" + name + "\">\n"
    requires StandsOnlyAt(m.content, "<<<UNTRUSTED_DATA", |header|)
    requires StandsOnlyAt(m.content, "END_UNTRUSTED_DATA>>>", |m.content| - 21)
    requires m.content == header + opening + body + "\nEND_UNTRUSTED_DATA>>>"
    ensures TellsRead(m, name, result)
  {
  }

  lemma {:induction false} FenceParts(name: string, tag: string, result: string, opening: string, body: string, fence: string)
    requires tag == "tool_result_" + name && SafeLabel(Some(tag)) == tag
    requires opening == "<<<UNTRUSTED_DATA name=\"tool_result_" + name + "\">\n"
    requires body == Truncate(NeutraliseUntrusted(result), MAX_TOOL_RESULT_CHARS)
    requires fence == FenceUntrusted(Some(tag), result, MAX_TOOL_RESULT_CHARS)
    ensures fence == opening + body + "\nEND_UNTRUSTED_DATA>>>"
  {
    OpeningIs(name, tag, opening);
    CloseIs(opening, body);
  }

  lemma {:induction false} OpeningIs(name: string, tag: string, opening: string)
    requires tag == "tool_result_" + name && opening == "<<<UNTRUSTED_DATA name=\"tool_result_" + name + "\">\n"
    ensures FENCE_OPEN + " name=\"" + tag + "\">\n" == opening
  {
    assert FENCE_OPEN + " name=\"" + "tool_result_" == "<<<UNTRUSTED_DATA name=\"tool_result_";
    assert FENCE_OPEN + " name=\"" + tag == FENCE_OPEN + " name=\"" + "tool_result_" + name;
  }

  lemma {:induction false} CloseIs(opening: string, body: string)
    ensures opening + body + "\n" + FENCE_CLOSE == opening + body + "\nEND_UNTRUSTED_DATA>>>"
  {
    assert "\n" + FENCE_CLOSE == "\nEND_UNTRUSTED_DATA>>>";
  }

  lemma {:induction false} FenceStands(tag: string, result: string, fence: string)
    requires fence == FenceUntrusted(Some(tag), result, MAX_TOOL_RESULT_CHARS)
    ensures StandsOnlyAt(fence, FENCE_OPEN, 0) && StandsOnlyAt(fence, FENCE_CLOSE, |fence| - |FENCE_CLOSE|)
  {
    forall i
      ensures MatchAt(fence, FENCE_OPEN, i) <==> i == 0
      ensures MatchAt(fence, FENCE_CLOSE, i) <==> i == |fence| - |FENCE_CLOSE|
    {
      FenceHolds(Some(tag), result, MAX_TOOL_RESULT_CHARS, i);
    }
  }

  lemma {:induction false} MarkersAfterLine(line: string, header: string, fence: string, content: string)
    requires '<' !in line && '>' !in line && header == line + "\n" && content == header + fence
    requires StandsOnlyAt(fence, FENCE_OPEN, 0) && StandsOnlyAt(fence, FENCE_CLOSE, |fence| - |FENCE_CLOSE|)
    ensures StandsOnlyAt(content, "<<<UNTRUSTED_DATA", |header|)
    ensures StandsOnlyAt(content, "END_UNTRUSTED_DATA>>>", |content| - 21)
  {
    assert content == line + ['\n'] + fence && |FENCE_CLOSE| == 21;
    forall i
      ensures MatchAt(content, FENCE_OPEN, i) <==> i == |header|
      ensures MatchAt(content, FENCE_CLOSE, i) <==> i == |content| - 21
    {
      FenceAfterLine(line, fence, FENCE_OPEN, 0, i);
      FenceAfterLine(line, fence, FENCE_CLOSE, |fence| - |FENCE_CLOSE|, i);
    }
  }

  lemma {:induction false} EchoIsTold(call: ToolCall, payload: string, p: Proposal)
    ensures TellsProposal(Told(call, Executed(payload, Some(p))), call.name, payload)
  {
  }

  lemma {:induction false} RefusalIsTold(call: ToolCall, reason: Reason)
    ensures TellsRefusal(Told(call, Refused(reason)), call.name, reason)
  {
    assert Code(reason, Word(reason));
  }

  /** Whatever was dispatched, the model is told of it in this form; a read's result, what the rest of the system
      answered, only inside a fence. */
  lemma {:induction false} DispatchIsTold(deps: Deps, log: seq<Dispatch>, trusted: bool, j: nat)
    requires Careful(deps, log, trusted) && j < |log|
    ensures Tells(log[j].told, log[j])
    ensures IsRead(log[j]) ==>
      && IsReadName(log[j].call.name) && TellsRead(log[j].told, log[j].call.name, log[j].outcome.result)
  {
    var d := log[j];
    assert CarefulAt(deps, log, trusted, j);
    GatedByName(deps.actor, deps.port, d.allowed, d.call, d.outcome);
    match d.outcome {
      case Executed(result, None) => ReadIsTold(d.call, result);
      case Executed(result, Some(p)) => EchoIsTold(d.call, result, p);
      case Refused(reason) => RefusalIsTold(d.call, reason);
    }
  }

  /** Each time it is called the model sees the context, then one message for each call dispatched so far, in order: of
      the calls the earlier replies asked for, the first four. */
  lemma {:induction false} ModelHears(deps: Deps, initial: seq<Message>, trusted: bool, calls: seq<seq<Message>>, log: seq<Dispatch>,
                                      answer: Answer, i: nat)
    requires Talked(deps, initial, trusted, calls, log, answer) && i < |calls|
    ensures var asked := |Requested(deps, calls[..i])|;
      var done := if asked <= 4 then asked else 4;
      && done <= |log| && |calls[i]| == |initial| + done && calls[i][..|initial|] == initial
      && forall j | 0 <= j < done :: Tells(calls[i][|initial| + j], log[j])
  {
    assert SawAt(deps, initial, log, calls, i);
    forall j | 0 <= j < Reach(|Requested(deps, calls[..i])|)
      ensures Tells(calls[i][|initial| + j], log[j])
    {
      DispatchIsTold(deps, log, trusted, j);
    }
  }

  // ---- what the replies add up to ----

  /** The first reply's tokens, and those of the second if there was one; the text of the last. */
  lemma {:induction false} RepliesAddUp(deps: Deps, initial: seq<Message>, trusted: bool, calls: seq<seq<Message>>, log: seq<Dispatch>,
                                        answer: Answer)
    requires Talked(deps, initial, trusted, calls, log, answer) && answer.Answered?
    ensures |calls| in {1, 2}
    ensures var first, last := deps.model(0, calls[0]), deps.model(|calls| - 1, calls[|calls| - 1]);
      && first.Replied? && last.Replied? && answer.text == last.text
      && Requested(deps, calls) == (if |calls| == 1 then first.toolCalls else first.toolCalls + last.toolCalls)
      && Reported(deps, calls).promptTokens ==
           (if |calls| == 1 then first.promptTokens else first.promptTokens + last.promptTokens)
      && Reported(deps, calls).completionTokens ==
           (if |calls| == 1 then first.completionTokens else first.completionTokens + last.completionTokens)
  {
    var one := calls[..1];
    assert one[..0] == [] && one[0] == calls[0];
    assert Reported(deps, one) == Add(Reply("", 0, 0), deps.model(0, calls[0]));
    assert Requested(deps, one) == [] + Wanted(deps.model(0, calls[0]));
    if |calls| == 1 {
      assert calls == one;
    } else {
      assert calls[..1] == one;
      assert Reported(deps, calls) == Add(Reported(deps, one), deps.model(1, calls[1]));
    }
  }

  /** A turn's price: what the replies reported of prompt tokens at the input price, and of completion tokens at the
      output price. */
  lemma {:induction false} ActualCovers(pricing: Pricing, reply: Reply, p: int, c: int, i: int, o: int)
    requires S.CountsAs(reply.promptTokens, p) && S.CountsAs(reply.completionTokens, c)
    requires S.CountsAs(pricing.input, i) && S.CountsAs(pricing.output, o)
    ensures p * i + c * o <= 1_000_000 * Actual(pricing, reply) < p * i + c * o + 1_000_000
  {
    S.EstimateCovers(reply.promptTokens, reply.completionTokens, pricing.input, pricing.output, p, c, i, o);
  }

  lemma {:induction false} CharsAddUp(a: seq<Message>, m: Message)
    ensures Chars([]) == 0 && Chars(a + [m]) == Chars(a) + |m.content|
  {
    assert (a + [m])[..|a|] == a;
  }

  /** The estimate: a quarter of the context's characters, rounded up, at the input price, and the longest answer allowed
      at the output price. */
  lemma {:induction false} ContextCovers(config: S.Config, pricing: Pricing, messages: seq<Message>, t: int, c: int, i: int, o: int)
    requires Chars(messages) <= 4 * t < Chars(messages) + 4 && t <= 9_007_199_254_740_991
    requires S.CountsAs(config.maxOutputTokens, c) && S.CountsAs(pricing.input, i) && S.CountsAs(pricing.output, o)
    ensures t * i + c * o <= 1_000_000 * Estimate(config, pricing, messages) < t * i + c * o + 1_000_000
  {
    assert (Chars(messages) + 3) / 4 == t;
    S.EstimateCovers(t, config.maxOutputTokens, pricing.input, pricing.output, t, c, i, o);
  }

  // ---- what the answer reports ----

  /** at are the places below n, in order, where p holds. */
  ghost predicate PlacesOf(at: seq<nat>, n: nat, p: nat -> bool) {
    && (forall k, l | 0 <= k < l < |at| :: at[k] < at[l])
    && forall i: nat :: i in at <==> i < n && p(i)
  }

  lemma {:induction false} NextPlace(at: seq<nat>, n: nat, p: nat -> bool)
    requires PlacesOf(at, n, p)
    ensures PlacesOf(if p(n) then at + [n] else at, n + 1, p)
  {
    forall k | 0 <= k < |at|
      ensures at[k] < n
    {
      assert at[k] in at;
    }
  }

  ghost function Made(log: seq<Dispatch>): nat -> bool {
    (i: nat) => i < |log| && log[i].outcome.Executed? && log[i].outcome.proposal.Some?
  }

  ghost function Declined(log: seq<Dispatch>): nat -> bool {
    (i: nat) => i < |log| && log[i].outcome.Refused?
  }

  /** The proposals ps are those made at these places. */
  ghost predicate AreMade(log: seq<Dispatch>, at: seq<nat>, ps: seq<Proposal>) {
    |ps| == |at| && forall k | 0 <= k < |at| ::
      at[k] < |log| && log[at[k]].outcome.Executed? && log[at[k]].outcome.proposal == Some(ps[k])
  }

  ghost predicate AreDeclined(log: seq<Dispatch>, at: seq<nat>, rs: seq<Reason>) {
    |rs| == |at| && forall k | 0 <= k < |at| :: at[k] < |log| && log[at[k]].outcome == Refused(rs[k])
  }

  lemma {:induction false} NextMade(log: seq<Dispatch>, n: nat, at: seq<nat>, next: seq<Dispatch>) returns (at': seq<nat>)
    requires n < |log| && next == log[..n + 1]
    requires PlacesOf(at, n, Made(log)) && AreMade(log, at, Proposals(log[..n]))
    ensures PlacesOf(at', n + 1, Made(log)) && AreMade(log, at', Proposals(next))
  {
    NextPlace(at, n, Made(log));
    assert next[..n] == log[..n] && next[n] == log[n];
    at' := if Made(log)(n) then at + [n] else at;
  }

  lemma {:induction false} ProposalsAreMade(log: seq<Dispatch>) returns (at: seq<nat>)
    ensures PlacesOf(at, |log|, Made(log)) && AreMade(log, at, Proposals(log))
  {
    at := [];
    assert log[..0] == [];
    for n := 0 to |log|
      invariant PlacesOf(at, n, Made(log)) && AreMade(log, at, Proposals(log[..n]))
    {
      at := NextMade(log, n, at, log[..n + 1]);
    }
    assert log[..|log|] == log;
  }

  lemma {:induction false} NextDeclined(log: seq<Dispatch>, n: nat, at: seq<nat>, next: seq<Dispatch>) returns (at': seq<nat>)
    requires n < |log| && next == log[..n + 1]
    requires PlacesOf(at, n, Declined(log)) && AreDeclined(log, at, RefusedIn(log[..n]))
    ensures PlacesOf(at', n + 1, Declined(log)) && AreDeclined(log, at', RefusedIn(next))
  {
    NextPlace(at, n, Declined(log));
    assert next[..n] == log[..n] && next[n] == log[n];
    at' := if Declined(log)(n) then at + [n] else at;
  }

  lemma {:induction false} RefusalsAreDeclined(log: seq<Dispatch>) returns (at: seq<nat>)
    ensures PlacesOf(at, |log|, Declined(log)) && AreDeclined(log, at, RefusedIn(log))
  {
    at := [];
    assert log[..0] == [];
    for n := 0 to |log|
      invariant PlacesOf(at, n, Declined(log)) && AreDeclined(log, at, RefusedIn(log[..n]))
    {
      at := NextDeclined(log, n, at, log[..n + 1]);
    }
    assert log[..|log|] == log;
  }

  lemma {:induction false} AllExhausted(n: nat)
    ensures |Exhausted(n)| == n && forall k | 0 <= k < n :: Exhausted(n)[k] == BudgetExhausted
  {
    if n > 0 { AllExhausted(n - 1); }
  }

  /** An answer reports, in order, every proposal that was made, every call that was refused with its reason, and one
      more refusal for each call past the fourth that was asked for; the first four were dispatched. */
  lemma {:induction false} AnswerReports(deps: Deps, initial: seq<Message>, trusted: bool, calls: seq<seq<Message>>,
                                         log: seq<Dispatch>, answer: Answer)
    returns (made: seq<nat>, declined: seq<nat>)
    requires Talked(deps, initial, trusted, calls, log, answer) && answer.Answered?
    ensures var asked := Requested(deps, calls);
      var over := if |asked| > 4 then |asked| - 4 else 0;
      && |log| == |asked| - over && (forall i | 0 <= i < |log| :: log[i].call == asked[i])
      && PlacesOf(made, |log|, Made(log)) && AreMade(log, made, answer.proposals)
      && PlacesOf(declined, |log|, Declined(log)) && |answer.refusals| == |declined| + over
      && AreDeclined(log, declined, answer.refusals[..|declined|])
      && forall k | |declined| <= k < |answer.refusals| :: answer.refusals[k] == BudgetExhausted
  {
    made := ProposalsAreMade(log);
    declined := RefusalsAreDeclined(log);
    var n := |Requested(deps, calls)|;
    AllExhausted(if n < |log| then 0 else n - |log|);
    assert (RefusedIn(log) + Exhausted(n - |log|))[..|declined|] == RefusedIn(log);
  }

  // ---- what keeps a turn from talking ----

  /** Why a turn never reaches the model: switched off; no key; in free mode a model that the live catalogue does not
      show as free, never a paid one instead; in paid mode no model or no prices, or a refused reservation. */
  lemma {:induction false} StoppedExactlyWhen(before: L.Books, config: S.Config, deps: Deps, messages: seq<Message>)
    ensures var stopped := Stopped(before, config, deps, messages);
      var on := config.mode != S.Off && deps.apiKey.Some? && deps.apiKey.value != "";
      var free := on && config.mode == S.OpenrouterFree;
      var paid := on && config.mode == S.PaidApi;
      var priced := paid && deps.paidModel && deps.pricing.Some?;
      && (stopped == Some(AssistantOff) <==> config.mode == S.Off)
      && (stopped == Some(FreePricingUnknown) <==> free && deps.free == PricingUnknown)
      && (stopped == Some(FreeModelUnavailable) <==> free && deps.free == NotInCatalogue)
      && (stopped == Some(FreeModelNotFree) <==> free && deps.free == NotFree)
      && (stopped == None ==> on && (free ==> deps.free == Eligible) && (paid ==> priced))
      && (free && deps.free == Eligible ==> stopped == None)
      && (config.mode != S.Off && !on ==> stopped == Some(NotConfigured))
      && (paid && !priced ==> stopped == Some(NotConfigured))
      && (priced ==>
            var r := S.ReserveSpec(before, deps.faults, config, Estimate(config, deps.pricing.value, messages), deps.requestId).1;
            && (r.Ok? <==> stopped == None)
            && (r == Err(S.NotConfigured) ==> stopped == Some(NotConfigured))
            && (r.Err? && r.error != S.NotConfigured ==> stopped == Some(BudgetRefused(r.error))))
  {
  }
}
