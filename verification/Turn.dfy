/** One turn of the assistant: a bounded loop around a model that may answer anything. */
module Turn {
  import opened Text
  import opened Prompt
  import opened Tools
  import L = Ledger
  import S = Spending

  const MAX_TOOL_ROUNDS := 2
  const MAX_TOOL_CALLS := 4

  datatype Unavailable =
    | AssistantOff | NotConfigured | FreePricingUnknown | FreeModelUnavailable | FreeModelNotFree
    | BudgetRefused(why: S.Refusal) | ProviderFailed

  /** What the live catalogue says about the configured free model. */
  datatype FreeModel = Eligible | PricingUnknown | NotInCatalogue | NotFree

  datatype Pricing = Pricing(input: int, output: int)

  datatype ModelOutcome =
    | Failed
    | Replied(text: string, promptTokens: int, completionTokens: int, toolCalls: seq<ToolCall>)

  /** One tool call that was dispatched and did not throw: whether a proposal was allowed then, what came of it, what the model is told. */
  datatype Dispatch = Dispatch(call: ToolCall, allowed: bool, outcome: Outcome, told: Message)

  /** What the caller gets; `Thrown` is no answer at all, a rejection that passes through. */
  datatype Answer =
    | Thrown
    | Unanswered(reason: Unavailable)
    | Answered(text: string, refusals: seq<Reason>, proposals: seq<Proposal>, cost: Option<nat>)

  /** Everything outside the turn, except the ledger. */
  datatype Deps = Deps(apiKey: Option<string>, free: FreeModel, paidModel: bool, pricing: Option<Pricing>, actor: Actor, port: Port,
                       model: (nat, seq<Message>) -> ModelOutcome, faults: S.Faults, requestId: string)

  predicate IsRead(d: Dispatch) {
    d.outcome.Executed? && d.outcome.proposal.None?
  }

  predicate Proposes(d: Dispatch) {
    d.outcome.Executed? && d.outcome.proposal.Some?
  }

  function Word(reason: Reason): string {
    match reason
    case UnknownTool => "UNKNOWN_TOOL"
    case InvalidArguments => "INVALID_ARGUMENTS"
    case NotPermitted => "NOT_PERMITTED"
    case ProposalsDisabled => "PROPOSALS_DISABLED_UNTRUSTED_CONTEXT"
    case BudgetExhausted => "TOOL_BUDGET_EXHAUSTED"
  }

  /** The words that go back to the model: a read's result only ever inside a fence. */
  function Told(call: ToolCall, outcome: Outcome): Message
    requires !outcome.Threw?
  {
    match outcome
    case Executed(result, Some(_)) => Message(User, "[tool result: " + call.name + "]\n" + result)
    case Executed(result, None) =>
      Message(User, "[tool result: " + call.name + "]\n"
                    + FenceUntrusted(Some("tool_result_" + call.name), result, MAX_TOOL_RESULT_CHARS))
    case Refused(reason) => Message(User, "[tool refused: " + call.name + "] " + Word(reason))
  }

  function ToldAll(log: seq<Dispatch>): seq<Message> {
    seq(|log|, i requires 0 <= i < |log| => log[i].told)
  }

  function Proposals(log: seq<Dispatch>): seq<Proposal> {
    if log == [] then []
    else
      var last := log[|log| - 1];
      Proposals(log[..|log| - 1]) + if Proposes(last) then [last.outcome.proposal.value] else []
  }

  /** The dispatches are those of the first calls asked for, as far as the allowance reaches. */
  ghost predicate Dispatched(log: seq<Dispatch>, asked: seq<ToolCall>) {
    && |log| == Reach(|asked|)
    && forall i | 0 <= i < |log| :: log[i].call == asked[i]
  }

  /** The reasons of the dispatches that were refused, in order. */
  function RefusedIn(log: seq<Dispatch>): seq<Reason> {
    if log == [] then []
    else
      var last := log[|log| - 1];
      RefusedIn(log[..|log| - 1]) + if last.outcome.Refused? then [last.outcome.reason] else []
  }

  function Exhausted(n: nat): seq<Reason> {
    if n == 0 then [] else Exhausted(n - 1) + [BudgetExhausted]
  }

  /** What a turn that was asked for n calls reports as refused. */
  function RefusedOf(log: seq<Dispatch>, n: nat): seq<Reason> {
    RefusedIn(log) + Exhausted(if n < |log| then 0 else n - |log|)
  }

  /** How many of n requested calls the allowance reaches. */
  function Reach(n: nat): nat {
    if n < MAX_TOOL_CALLS then n else MAX_TOOL_CALLS
  }

  /** No proposal once the turn has read anything, nor at all when the context was not all ours. */
  predicate Untainted(log: seq<Dispatch>, trusted: bool) {
    trusted && forall i | 0 <= i < |log| :: !IsRead(log[i])
  }

  /** Dispatch j was gated by what had been read before it, and told as it came out. */
  ghost predicate CarefulAt(deps: Deps, log: seq<Dispatch>, trusted: bool, j: nat)
    requires j < |log|
  {
    && (log[j].allowed <==> Untainted(log[..j], trusted)) && !log[j].outcome.Threw?
    && Gated(deps.actor, deps.port, log[j].allowed, log[j].call, log[j].outcome)
    && log[j].told == Told(log[j].call, log[j].outcome)
  }

  ghost predicate Careful(deps: Deps, log: seq<Dispatch>, trusted: bool) {
    forall j | 0 <= j < |log| :: CarefulAt(deps, log, trusted, j)
  }

  lemma {:induction false} CarefulGrows(deps: Deps, log: seq<Dispatch>, trusted: bool, d: Dispatch)
    requires Careful(deps, log, trusted)
    requires d.allowed <==> Untainted(log, trusted)
    requires Gated(deps.actor, deps.port, d.allowed, d.call, d.outcome)
    requires !d.outcome.Threw? && d.told == Told(d.call, d.outcome)
    ensures Careful(deps, log + [d], trusted)
    ensures Untainted(log + [d], trusted) <==> Untainted(log, trusted) && !IsRead(d)
    ensures ToldAll(log + [d]) == ToldAll(log) + [d.told]
    ensures Proposals(log + [d]) == Proposals(log) + if Proposes(d) then [d.outcome.proposal.value] else []
  {
    var longer := log + [d];
    assert longer[..|log|] == log;
    assert longer[|log|] == d;
    forall j | 0 <= j < |longer|
      ensures CarefulAt(deps, longer, trusted, j)
    {
      if j < |log| {
        assert CarefulAt(deps, log, trusted, j) && longer[..j] == log[..j];
      }
    }
  }

  /** A proposal in the log was made before any read and in a context without untrusted sections. */
  lemma {:induction false} NoProposalAfterReading(deps: Deps, log: seq<Dispatch>, trusted: bool, j: nat)
    requires Careful(deps, log, trusted) && j < |log| && Proposes(log[j])
    ensures trusted && forall i | 0 <= i < j :: !IsRead(log[i])
    ensures ToolNamed(log[j].call.name).Some? && IsProposalTool(ToolNamed(log[j].call.name).value)
    ensures IsOwnerOnly(ToolNamed(log[j].call.name).value) ==> deps.actor.isPlatformOwner
  {
    assert CarefulAt(deps, log, trusted, j);
    assert forall i | 0 <= i < j :: log[..j][i] == log[i];
  }

  // ---- the loop ----

  /** The call throws at this point of the turn. */
  ghost predicate Throws(deps: Deps, log: seq<Dispatch>, trusted: bool, call: ToolCall) {
    Gated(deps.actor, deps.port, Untainted(log, trusted), call, Threw)
  }

  method DispatchOne(deps: Deps, ghost trusted: bool, ghost log: seq<Dispatch>, proposalsAllowed: bool, call: ToolCall)
    returns (dispatch: Option<Dispatch>)
    requires Careful(deps, log, trusted) && (proposalsAllowed <==> Untainted(log, trusted))
    ensures dispatch.None? <==> Throws(deps, log, trusted, call)
    ensures dispatch.Some? ==>
      var d := dispatch.value;
      && Careful(deps, log + [d], trusted) && d.call == call
      && (Untainted(log + [d], trusted) <==> proposalsAllowed && !IsRead(d))
      && (d.outcome.Executed? ==> ToolNamed(call.name).Some? && (IsRead(d) <==> !IsProposalTool(ToolNamed(call.name).value)))
  {
    var outcome, _ := DispatchToolCall(deps.actor, deps.port, proposalsAllowed, call);
    if outcome.Threw? { return None; }
    var d := Dispatch(call, proposalsAllowed, outcome, Told(call, outcome));
    CarefulGrows(deps, log, trusted, d);
    dispatch := Some(d);
  }

  /** What the turn remembers between tool calls. */
  datatype Memory = Memory(log: seq<Dispatch>, proposalsAllowed: bool, toolCallBudget: nat, refusals: seq<Reason>)

  ghost predicate Kept(deps: Deps, trusted: bool, m: Memory) {
    && Careful(deps, m.log, trusted)
    && (m.proposalsAllowed <==> Untainted(m.log, trusted))
    && m.toolCallBudget + |m.log| == MAX_TOOL_CALLS
  }

  /** Of the calls asked for, the first ones were dispatched, and every other was refused as over the allowance. */
  ghost predicate Accounted(m: Memory, asked: seq<ToolCall>) {
    Dispatched(m.log, asked) && m.refusals == RefusedOf(m.log, |asked|)
  }

  lemma {:induction false} OneRefused(m: Memory, asked: seq<ToolCall>, call: ToolCall)
    requires Accounted(m, asked) && |m.log| == MAX_TOOL_CALLS
    ensures Accounted(m.(refusals := m.refusals + [BudgetExhausted]), asked + [call])
  {
  }

  lemma {:induction false} OneDispatched(m: Memory, asked: seq<ToolCall>, d: Dispatch, m': Memory)
    requires Accounted(m, asked) && |m.log| < MAX_TOOL_CALLS
    requires m'.log == m.log + [d]
    requires m'.refusals == if d.outcome.Refused? then m.refusals + [d.outcome.reason] else m.refusals
    ensures Accounted(m', asked + [d.call])
  {
    assert m'.log[..|m.log|] == m.log;
  }

  /** The calls asked for were dispatched up to one that threw. */
  ghost predicate BrokeOff(deps: Deps, log: seq<Dispatch>, trusted: bool, asked: seq<ToolCall>) {
    && |log| < Reach(|asked|)
    && (forall i | 0 <= i < |log| :: log[i].call == asked[i])
    && Throws(deps, log, trusted, asked[|log|])
  }

  /** One call: dispatched while the allowance lasts. `asked` is what was asked for before it. */
  method RunCall(deps: Deps, ghost trusted: bool, call: ToolCall, before: Memory, ghost asked: seq<ToolCall>)
    returns (m: Memory, threw: bool)
    requires Kept(deps, trusted, before) && Accounted(before, asked)
    ensures Kept(deps, trusted, m)
    ensures if threw then m == before && BrokeOff(deps, m.log, trusted, asked + [call]) else Accounted(m, asked + [call])
    ensures before.log <= m.log && (m.proposalsAllowed ==> before.proposalsAllowed)
  {
    if before.toolCallBudget <= 0 {
      OneRefused(before, asked, call);
      return before.(refusals := before.refusals + [BudgetExhausted]), false;
    }
    var dispatch := DispatchOne(deps, trusted, before.log, before.proposalsAllowed, call);
    if dispatch.None? { return before, true; }
    var d := dispatch.value;
    var stillAllowed := before.proposalsAllowed && !(d.outcome.Executed? && !IsProposalTool(ToolNamed(d.call.name).value));
    m := Memory(before.log + [d], stillAllowed, before.toolCallBudget - 1,
                if d.outcome.Refused? then before.refusals + [d.outcome.reason] else before.refusals);
    threw := false;
    OneDispatched(before, asked, d, m);
  }

  /** The calls of one reply, as far as the turn's allowance reaches and none throws; the taint flag only ever moves to
      false. */
  method RunCalls(deps: Deps, ghost trusted: bool, calls: seq<ToolCall>, before: Memory, ghost asked: seq<ToolCall>)
    returns (m: Memory, threw: bool)
    requires Kept(deps, trusted, before) && Accounted(before, asked)
    ensures Kept(deps, trusted, m)
    ensures if threw then calls != [] && BrokeOff(deps, m.log, trusted, asked + calls) else Accounted(m, asked + calls)
    ensures before.log <= m.log && (m.proposalsAllowed ==> before.proposalsAllowed)
  {
    m := before;
    ghost var seen := asked;
    for i := 0 to |calls|
      invariant seen == asked + calls[..i] && Kept(deps, trusted, m) && Accounted(m, seen)
      invariant before.log <= m.log && (m.proposalsAllowed ==> before.proposalsAllowed)
    {
      m, threw := RunCall(deps, trusted, calls[i], m, seen);
      seen := seen + [calls[i]];
      if threw {
        EarlierCalls(asked, calls, i + 1);
        BrokeOffEarlier(deps, m.log, trusted, seen, asked + calls);
        return;
      }
    }
    threw := false;
    assert seen == asked + calls;
  }

  lemma {:induction false} EarlierCalls(asked: seq<ToolCall>, calls: seq<ToolCall>, n: nat)
    requires n <= |calls|
    ensures asked + calls[..n] <= asked + calls
  {
  }

  lemma {:induction false} BrokeOffEarlier(deps: Deps, log: seq<Dispatch>, trusted: bool, asked: seq<ToolCall>, more: seq<ToolCall>)
    requires BrokeOff(deps, log, trusted, asked) && asked <= more
    ensures BrokeOff(deps, log, trusted, more)
  {
    assert forall i | 0 <= i < |asked| :: asked[i] == more[i];
  }

  datatype Reply = Reply(text: string, promptTokens: int, completionTokens: int)

  /** What the replies so far reported, the last text and the token counts added up. */
  ghost function Reported(deps: Deps, calls: seq<seq<Message>>): Reply {
    if calls == [] then Reply("", 0, 0)
    else
      var n := |calls| - 1;
      var before := Reported(deps, calls[..n]);
      Add(before, deps.model(n, calls[n]))
  }

  function Add(total: Reply, outcome: ModelOutcome): Reply {
    match outcome
    case Failed => total
    case Replied(text, p, c, _) => Reply(text, total.promptTokens + p, total.completionTokens + c)
  }

  /** The tool calls that the replies so far asked for. */
  ghost function Requested(deps: Deps, calls: seq<seq<Message>>): seq<ToolCall> {
    if calls == [] then []
    else
      var n := |calls| - 1;
      Requested(deps, calls[..n]) + Wanted(deps.model(n, calls[n]))
  }

  function Wanted(outcome: ModelOutcome): seq<ToolCall> {
    if outcome.Failed? then [] else outcome.toolCalls
  }

  /** Each time the model saw the context and then exactly what came of the calls it asked for before. */
  ghost predicate Saw(deps: Deps, initial: seq<Message>, log: seq<Dispatch>, calls: seq<seq<Message>>) {
    forall i | 0 <= i < |calls| :: SawAt(deps, initial, log, calls, i)
  }

  ghost predicate SawAt(deps: Deps, initial: seq<Message>, log: seq<Dispatch>, calls: seq<seq<Message>>, i: nat)
    requires i < |calls|
  {
    var done := Reach(|Requested(deps, calls[..i])|);
    done <= |log| && calls[i] == initial + ToldAll(log[..done])
  }

  ghost predicate AskedForTools(deps: Deps, calls: seq<seq<Message>>, n: nat)
    requires n <= |calls|
  {
    forall i | 0 <= i < n :: deps.model(i, calls[i]).Replied? && deps.model(i, calls[i]).toolCalls != []
  }

  /** The state of the conversation after these calls. */
  ghost predicate Conversed(deps: Deps, trusted: bool, initial: seq<Message>, m: Memory, calls: seq<seq<Message>>, total: Reply) {
    && Kept(deps, trusted, m) && Accounted(m, Requested(deps, calls)) && Saw(deps, initial, m.log, calls)
    && total == Reported(deps, calls)
  }

  lemma {:induction false} OneMoreCall(deps: Deps, calls: seq<seq<Message>>, messages: seq<Message>)
    ensures var outcome := deps.model(|calls|, messages);
      && Requested(deps, calls + [messages]) == Requested(deps, calls) + Wanted(outcome)
      && Reported(deps, calls + [messages]) == Add(Reported(deps, calls), outcome)
  {
    var more := calls + [messages];
    assert more[..|calls|] == calls && more[|calls|] == messages;
  }

  /** One more call is made with everything told so far; what its tool calls give is told later. */
  lemma {:induction false} SawAgain(deps: Deps, initial: seq<Message>, log: seq<Dispatch>, calls: seq<seq<Message>>,
                                    messages: seq<Message>, longer: seq<Dispatch>)
    requires Saw(deps, initial, log, calls) && messages == initial + ToldAll(log)
    requires |log| == Reach(|Requested(deps, calls)|) && log <= longer
    ensures Saw(deps, initial, longer, calls + [messages])
  {
    var more := calls + [messages];
    assert longer[..|log|] == log;
    forall i | 0 <= i < |more|
      ensures SawAt(deps, initial, longer, more, i)
    {
      assert more[..i] == calls[..i];
      if i < |calls| {
        assert SawAt(deps, initial, log, calls, i);
        var done := Reach(|Requested(deps, calls[..i])|);
        assert longer[..done] == log[..done];
      } else {
        assert calls[..i] == calls;
      }
    }
  }

  lemma {:induction false} AskedAgain(deps: Deps, calls: seq<seq<Message>>, messages: seq<Message>)
    requires AskedForTools(deps, calls, |calls|)
    ensures AskedForTools(deps, calls + [messages], |calls|)
    ensures Wanted(deps.model(|calls|, messages)) != [] ==> AskedForTools(deps, calls + [messages], |calls| + 1)
  {
    var more := calls + [messages];
    assert forall i | 0 <= i < |calls| :: more[i] == calls[i];
    assert more[|calls|] == messages;
  }

  /** A conversation that a throwing tool call ended. */
  ghost predicate Interrupted(deps: Deps, trusted: bool, initial: seq<Message>, m: Memory, calls: seq<seq<Message>>) {
    && Kept(deps, trusted, m) && Saw(deps, initial, m.log, calls)
    && BrokeOff(deps, m.log, trusted, Requested(deps, calls)) && AskedForTools(deps, calls, |calls|)
  }

  /** One model call, and the tool calls its reply asks for. */
  method Round(deps: Deps, ghost trusted: bool, initial: seq<Message>, before: Memory, earlier: seq<seq<Message>>, total: Reply)
    returns (calls: seq<seq<Message>>, outcome: ModelOutcome, m: Memory, total': Reply, threw: bool)
    requires Conversed(deps, trusted, initial, before, earlier, total) && AskedForTools(deps, earlier, |earlier|)
    ensures if threw then Interrupted(deps, trusted, initial, m, calls) else Conversed(deps, trusted, initial, m, calls, total')
    ensures |calls| == |earlier| + 1 && outcome == deps.model(|earlier|, calls[|earlier|])
    ensures AskedForTools(deps, calls, |earlier|)
    ensures Wanted(outcome) != [] ==> AskedForTools(deps, calls, |calls|)
  {
    var messages := initial + ToldAll(before.log);
    outcome := deps.model(|earlier|, messages);
    total' := Add(total, outcome);
    m, threw := RunCalls(deps, trusted, Wanted(outcome), before, Requested(deps, earlier));
    OneMoreCall(deps, earlier, messages);
    SawAgain(deps, initial, before.log, earlier, messages, m.log);
    AskedAgain(deps, earlier, messages);
    calls := earlier + [messages];
  }

  /** How a conversation ended: the provider failed, the model spoke last, or a tool call threw. */
  datatype Ending = Silent | Spoken(reply: Reply) | ToolThrew

  /** At most two model calls and four dispatches, whatever the model answers. */
  method Converse(deps: Deps, trusted: bool, initial: seq<Message>)
    returns (ending: Ending, m: Memory, calls: seq<seq<Message>>)
    ensures 1 <= |calls| <= MAX_TOOL_ROUNDS && AskedForTools(deps, calls, |calls| - 1)
    ensures if ending.ToolThrew? then Interrupted(deps, trusted, initial, m, calls)
            else Conversed(deps, trusted, initial, m, calls, Reported(deps, calls))
    ensures var last := deps.model(|calls| - 1, calls[|calls| - 1]);
      !ending.ToolThrew? ==>
        if last.Failed? then ending.Silent?
        else ending == Spoken(Reported(deps, calls)) && (last.toolCalls == [] || |calls| == MAX_TOOL_ROUNDS)
  {
    m := Memory([], trusted, MAX_TOOL_CALLS, []);
    calls := [];
    var total := Reply("", 0, 0);
    var outcome := Failed;
    for round := 0 to MAX_TOOL_ROUNDS
      invariant |calls| == round && Conversed(deps, trusted, initial, m, calls, total)
      invariant AskedForTools(deps, calls, round)
      invariant round > 0 ==> outcome.Replied? && outcome == deps.model(round - 1, calls[round - 1])
    {
      var threw;
      calls, outcome, m, total, threw := Round(deps, trusted, initial, m, calls, total);
      if threw { return ToolThrew, m, calls; }
      if outcome.Failed? { return Silent, m, calls; }
      if outcome.toolCalls == [] { break; }
    }
    ending := Spoken(total);
  }

  // ---- the turn ----

  datatype Question = Question(systemPrompt: string, preamble: seq<string>, history: seq<Message>, text: string,
                               sections: seq<Section>)

  function Chars(messages: seq<Message>): nat {
    if messages == [] then 0 else Chars(messages[..|messages| - 1]) + |messages[|messages| - 1].content|
  }

  function Estimate(config: S.Config, pricing: Pricing, messages: seq<Message>): nat {
    S.EstimateRequestCostMinor((Chars(messages) + 3) / 4, config.maxOutputTokens, pricing.input, pricing.output)
  }

  function Actual(pricing: Pricing, reply: Reply): nat {
    S.EstimateRequestCostMinor(reply.promptTokens, reply.completionTokens, pricing.input, pricing.output)
  }

  /** What keeps a turn from starting, before any money is looked at. */
  function Blocked(config: S.Config, deps: Deps): Option<Unavailable> {
    if config.mode == S.Off then Some(AssistantOff)
    else if deps.apiKey.None? || deps.apiKey.value == "" then Some(NotConfigured)
    else if config.mode == S.OpenrouterFree then
      match deps.free
      case PricingUnknown => Some(FreePricingUnknown)
      case NotInCatalogue => Some(FreeModelUnavailable)
      case NotFree => Some(FreeModelNotFree)
      case Eligible => None
    else if !deps.paidModel || deps.pricing.None? then Some(NotConfigured)
    else None
  }

  /** How the turn comes back to its reservation. */
  ghost function Settled(pricing: Pricing, deps: Deps, calls: seq<seq<Message>>, answer: Answer): S.Answer {
    match answer
    case Thrown => S.Broken
    case Unanswered(_) => S.NoAnswer
    case Answered(_, _, _, _) => S.Answered(Actual(pricing, Reported(deps, calls)))
  }

  /** The ledger after a paid turn: the specification the loop's outcome feeds. */
  ghost predicate Charged(before: L.Books, after: L.Books, config: S.Config, deps: Deps, calls: seq<seq<Message>>, answer: Answer)
    requires deps.pricing.Some? && calls != []
  {
    var estimate := Estimate(config, deps.pricing.value, calls[0]);
    var outcome := Settled(deps.pricing.value, deps, calls, answer);
    && after == S.TurnSpec(before, deps.faults, config, estimate, deps.requestId, outcome)
    && (answer.Answered? ==> answer.cost == Some(S.Spent(before, deps.faults, config, estimate, deps.requestId, outcome)))
  }

  function Explain(why: S.Refusal): Unavailable {
    if why == S.NotConfigured then NotConfigured else BudgetRefused(why)
  }

  /** What keeps a turn from talking to the model: it is blocked, or a paid turn's reservation is refused. */
  ghost function Stopped(before: L.Books, config: S.Config, deps: Deps, messages: seq<Message>): Option<Unavailable> {
    if Blocked(config, deps).Some? then Blocked(config, deps)
    else if config.mode != S.PaidApi then None
    else
      var estimate := Estimate(config, deps.pricing.value, messages);
      var reserved := S.ReserveSpec(before, deps.faults, config, estimate, deps.requestId).1;
      if reserved.Err? then Some(Explain(reserved.error)) else None
  }

  /** The reservation a turn holds while it talks to the model; free turns hold none. */
  ghost predicate Holds(before: L.Books, now: L.Books, config: S.Config, deps: Deps, messages: seq<Message>,
                        reservation: Option<S.Reservation>) {
    if config.mode == S.PaidApi then
      && deps.pricing.Some? && reservation.Some?
      && S.ReserveSpec(before, deps.faults, config, Estimate(config, deps.pricing.value, messages), deps.requestId)
         == (now, Ok(reservation.value))
    else now == before && reservation.None?
  }

  method Hold(ledger: L.Budget, config: S.Config, deps: Deps, messages: seq<Message>)
    returns (reservation: Option<S.Reservation>, refusal: Option<Unavailable>)
    requires Blocked(config, deps).None?
    modifies ledger
    ensures refusal == Stopped(old(ledger.Contents()), config, deps, messages)
    ensures refusal.None? ==> Holds(old(ledger.Contents()), ledger.Contents(), config, deps, messages, reservation)
    ensures refusal.Some? ==> ledger.Contents() == old(ledger.Contents()) && config.mode == S.PaidApi
  {
    if config.mode != S.PaidApi { return None, None; }
    var estimate := Estimate(config, deps.pricing.value, messages);
    var reserved := S.ReserveForCall(ledger, deps.faults, config, estimate, deps.requestId);
    if reserved.Err? { return None, Some(Explain(reserved.error)); }
    return Some(reserved.value), None;
  }

  method Close(ledger: L.Budget, ghost before: L.Books, config: S.Config, deps: Deps, calls: seq<seq<Message>>,
               reservation: Option<S.Reservation>, reply: Option<Reply>, refusals: seq<Reason>, proposals: seq<Proposal>)
    returns (answer: Answer)
    requires calls != [] && Holds(before, ledger.Contents(), config, deps, calls[0], reservation)
    requires reply.Some? ==> reply.value == Reported(deps, calls)
    modifies ledger
    ensures if reply.None? then answer == Unanswered(ProviderFailed) else answer.Answered?
    ensures answer.Answered? ==> answer.text == reply.value.text && answer.proposals == proposals && answer.refusals == refusals
    ensures config.mode != S.PaidApi ==> ledger.Contents() == before && (answer.Answered? ==> answer.cost.None?)
    ensures config.mode == S.PaidApi ==> deps.pricing.Some? && Charged(before, ledger.Contents(), config, deps, calls, answer)
  {
    if reply.None? {
      if reservation.Some? {
        var _ := S.ReleaseReservation(ledger, deps.faults, reservation.value, deps.requestId);
      }
      return Unanswered(ProviderFailed);
    }
    var cost: Option<nat> := None;
    if reservation.Some? {
      var reconciled := S.ReconcileAfterCall(ledger, deps.faults, reservation.value,
                                             Actual(deps.pricing.value, reply.value), deps.requestId);
      cost := Some(reconciled.settled);
    }
    return Answered(reply.value.text, refusals, proposals, cost);
  }

  function Initial(question: Question): seq<Message> {
    Layout(question.systemPrompt, question.preamble, question.history, question.text, question.sections)
  }

  predicate AllTrusted(sections: seq<Section>) {
    forall s | s in sections :: s.trust == Trusted
  }

  /** What happened between the model, the tools and the turn: a careful conversation. When a tool call that the allowance
      reaches threw, so did the turn; otherwise the answer is what the replies said and what the dispatched calls gave,
      unless the last model call failed. */
  ghost predicate Talked(deps: Deps, initial: seq<Message>, trusted: bool, calls: seq<seq<Message>>, log: seq<Dispatch>,
                         answer: Answer) {
    && 1 <= |calls| <= MAX_TOOL_ROUNDS && |log| <= MAX_TOOL_CALLS
    && Careful(deps, log, trusted) && Saw(deps, initial, log, calls) && AskedForTools(deps, calls, |calls| - 1)
    && var asked, last := Requested(deps, calls), deps.model(|calls| - 1, calls[|calls| - 1]);
       if answer == Thrown then last.Replied? && BrokeOff(deps, log, trusted, asked)
       else
         && Dispatched(log, asked)
         && if last.Failed? then answer == Unanswered(ProviderFailed)
            else
              && answer.Answered? && (last.toolCalls == [] || |calls| == MAX_TOOL_ROUNDS)
              && answer.text == Reported(deps, calls).text && answer.proposals == Proposals(log)
              && answer.refusals == RefusedOf(log, |asked|)
  }

  /** What happened to the ledger: nothing without a paid conversation; a reservation alone when the turn threw; else
      exactly one charge. */
  ghost predicate Paid(before: L.Books, after: L.Books, config: S.Config, deps: Deps, calls: seq<seq<Message>>, answer: Answer) {
    if config.mode == S.PaidApi && calls != [] then
      deps.pricing.Some? && Charged(before, after, config, deps, calls, answer)
    else after == before && (answer.Answered? ==> answer.cost.None?)
  }

  method Run(ledger: L.Budget, config: S.Config, deps: Deps, trusted: bool, initial: seq<Message>)
    returns (answer: Answer, calls: seq<seq<Message>>, log: seq<Dispatch>)
    requires Blocked(config, deps).None?
    modifies ledger
    ensures var stopped := Stopped(old(ledger.Contents()), config, deps, initial);
      if stopped.Some? then answer == Unanswered(stopped.value) && calls == [] && log == []
      else Talked(deps, initial, trusted, calls, log, answer)
    ensures Paid(old(ledger.Contents()), ledger.Contents(), config, deps, calls, answer)
  {
    var reservation, refusal := Hold(ledger, config, deps, initial);
    if refusal.Some? { return Unanswered(refusal.value), [], []; }
    var ending, m;
    ending, m, calls := Converse(deps, trusted, initial);
    log := m.log;
    FirstSeen(deps, initial, m.log, calls);
    if ending.ToolThrew? { return Thrown, calls, log; }
    var reply := if ending.Silent? then None else Some(ending.reply);
    answer := Close(ledger, old(ledger.Contents()), config, deps, calls, reservation, reply, m.refusals, Proposals(m.log));
  }

  lemma {:induction false} FirstSeen(deps: Deps, initial: seq<Message>, log: seq<Dispatch>, calls: seq<seq<Message>>)
    requires calls != [] && Saw(deps, initial, log, calls)
    ensures calls[0] == initial
  {
    assert SawAt(deps, initial, log, calls, 0);
    assert calls[..0] == [] && Requested(deps, []) == [] && log[..0] == [];
    assert calls[0] == initial + ToldAll([]);
  }

  /** Switched on, with a key; in free mode a model that the live catalogue shows as free, in paid mode one with prices. */
  ghost predicate MayCall(config: S.Config, deps: Deps) {
    && config.mode != S.Off && deps.apiKey.Some? && deps.apiKey.value != ""
    && (config.mode == S.OpenrouterFree ==> deps.free == Eligible)
    && (config.mode == S.PaidApi ==> deps.paidModel && deps.pricing.Some?)
  }

  lemma {:induction false} UnblockedMayCall(config: S.Config, deps: Deps)
    ensures Blocked(config, deps).None? <==> MayCall(config, deps)
  {
  }

  /** One turn, whatever the caller, the model, the tools and the accounting do: it stops before the model is called,
      for the reason given, or it talks, or a tool call throws and the turn with it. */
  method Ask(ledger: L.Budget, config: S.Config, deps: Deps, question: Question)
    returns (answer: Answer, calls: seq<seq<Message>>, log: seq<Dispatch>)
    modifies ledger
    ensures var stopped := Stopped(old(ledger.Contents()), config, deps, Initial(question));
      if stopped.Some? then answer == Unanswered(stopped.value) && calls == [] && log == []
      else Talked(deps, Initial(question), AllTrusted(question.sections), calls, log, answer)
    ensures calls != [] ==> MayCall(config, deps)
    ensures Paid(old(ledger.Contents()), ledger.Contents(), config, deps, calls, answer)
  {
    var blocked := Blocked(config, deps);
    if blocked.Some? { return Unanswered(blocked.value), [], []; }
    UnblockedMayCall(config, deps);
    var context := BuildMessages(question.systemPrompt, question.preamble, question.history, question.text, question.sections);
    answer, calls, log := Run(ledger, config, deps, context.proposalsAllowed, context.messages);
  }

  /** A paid turn under a fresh request id, when the accounting calls work: the account spends exactly the turn's cost and
      stays within the cumulative cap. It holds what it held before exactly unless the turn threw with something
      reserved; then the whole estimate stays held. */
  lemma {:induction false} TurnIsPaidOnce(before: L.Books, after: L.Books, config: S.Config, deps: Deps, calls: seq<seq<Message>>,
                                          answer: Answer, account: string)
    requires deps.pricing.Some? && calls != [] && deps.faults == S.SOUND
    requires Charged(before, after, config, deps, calls, answer)
    requires config.account == Some(account) && account in before.accounts && S.FreshId(before, deps.requestId)
    requires before.accounts[account].reserved >= 0 && L.Exposure(before.accounts[account]) <= config.cumulativeCap
    ensures var cost := if answer.Answered? && answer.cost.Some? then answer.cost.value else 0;
      var estimate := Estimate(config, deps.pricing.value, calls[0]);
      var thrown := answer == Thrown && S.Granted(before, config, estimate, deps.requestId);
      && account in after.accounts
      && after.accounts[account] == before.accounts[account].(
           spent := before.accounts[account].spent + cost,
           reserved := before.accounts[account].reserved + if thrown then estimate else 0)
      && (after.accounts[account].reserved == before.accounts[account].reserved <==> !(thrown && estimate > 0))
      && L.Exposure(after.accounts[account]) <= config.cumulativeCap
  {
    var estimate := Estimate(config, deps.pricing.value, calls[0]);
    S.TurnBalances(before, config, estimate, deps.requestId, Settled(deps.pricing.value, deps, calls, answer), account);
  }

  /** The turn throws exactly when, of the calls the replies asked for, one that the allowance reaches passes its gates
      and its read is rejected, and none before it did. */
  lemma {:induction false} ThrowsExactlyWhen(deps: Deps, initial: seq<Message>, trusted: bool, calls: seq<seq<Message>>,
                                             log: seq<Dispatch>, answer: Answer)
    requires Talked(deps, initial, trusted, calls, log, answer)
    ensures var asked := Requested(deps, calls);
      answer == Thrown <==> |log| < Reach(|asked|) && Throws(deps, log, trusted, asked[|log|])
  {
  }

  /** Such a turn is there for every context: a model that asks for the summary first, and a summary that is rejected. */
  lemma {:induction false} FailedReadThrows(deps: Deps, initial: seq<Message>, trusted: bool, calls: seq<seq<Message>>,
                                            log: seq<Dispatch>, answer: Answer)
    requires Talked(deps, initial, trusted, calls, log, answer)
    requires deps.model(0, initial).Replied? && deps.model(0, initial).toolCalls != []
    requires var first := deps.model(0, initial).toolCalls[0];
      first.name == "get_summary" && deps.port.valid(GetSummary, first.arguments)
      && deps.port.read(GetSummary, first.arguments).None?
    ensures answer == Thrown && log == [] && |calls| == 1
  {
    FirstSeen(deps, initial, log, calls);
    var first := deps.model(0, initial).toolCalls[0];
    FirstAsked(deps, calls);
    FirstIsDone(deps, initial, log, calls);
    if log != [] {
      LoggedDidNotThrow(deps, log, trusted);
    }
  }

  lemma {:induction false} LoggedDidNotThrow(deps: Deps, log: seq<Dispatch>, trusted: bool)
    requires Careful(deps, log, trusted) && log != []
    ensures !Throws(deps, [], trusted, log[0].call)
  {
    assert CarefulAt(deps, log, trusted, 0) && log[..0] == [];
  }

  /** A second model call is made only when the first reply's calls were dispatched. */
  lemma {:induction false} FirstIsDone(deps: Deps, initial: seq<Message>, log: seq<Dispatch>, calls: seq<seq<Message>>)
    requires calls != [] && Saw(deps, initial, log, calls)
    ensures |calls| > 1 ==> |log| >= Reach(|Wanted(deps.model(0, calls[0]))|)
  {
    if |calls| > 1 {
      assert SawAt(deps, initial, log, calls, 1);
      FirstAsked(deps, calls[..1]);
    }
  }

  /** What the first reply asks for comes first. */
  lemma {:induction false} FirstAsked(deps: Deps, calls: seq<seq<Message>>)
    requires calls != []
    ensures Wanted(deps.model(0, calls[0])) <= Requested(deps, calls)
  {
    var n := |calls| - 1;
    if n == 0 {
      assert calls[..0] == [] && Requested(deps, []) == [];
      assert Requested(deps, calls) == [] + Wanted(deps.model(0, calls[0]));
    } else {
      FirstAsked(deps, calls[..n]);
    }
  }
}
