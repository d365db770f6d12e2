/** One tool call asked for by the model, through every gate in order. */
module Tools {
  import opened Text

  datatype Tool =
    | GetSummary | ListIncidents | ExplainRun | ProposePause | ProposeCampaignChange | ProposeMaintenanceJob

  /** The registered tools by the names the model uses. */
  function ToolNamed(name: string): Option<Tool> {
    if name == "get_summary" then Some(GetSummary)
    else if name == "list_incidents" then Some(ListIncidents)
    else if name == "explain_run" then Some(ExplainRun)
    else if name == "propose_pause" then Some(ProposePause)
    else if name == "propose_campaign_change" then Some(ProposeCampaignChange)
    else if name == "propose_maintenance_job" then Some(ProposeMaintenanceJob)
    else None
  }

  predicate IsProposalTool(tool: Tool) {
    tool == ProposePause || tool == ProposeCampaignChange || tool == ProposeMaintenanceJob
  }

  predicate IsOwnerOnly(tool: Tool) {
    tool == ProposeCampaignChange || tool == ProposeMaintenanceJob
  }

  datatype ToolCall = ToolCall(name: string, arguments: string)

  datatype Proposal = Proposal(tool: Tool, payload: string)

  datatype Reason = UnknownTool | InvalidArguments | NotPermitted | ProposalsDisabled | BudgetExhausted

  /** A call that threw has no outcome of its own: the rejection of a read passes through. */
  datatype Outcome = Executed(result: string, proposal: Option<Proposal>) | Refused(reason: Reason) | Threw

  /** What the rest of the system answers: argument checks, reads and the payloads the server composes itself. A read
      that answers nothing was rejected. */
  datatype Port = Port(valid: (Tool, string) -> bool, read: (Tool, string) -> Option<string>,
                       campaignKnown: string -> Option<bool>, kindEnabled: string -> Option<bool>,
                       payload: (Tool, string) -> string)

  datatype Actor = Actor(isPlatformOwner: bool, hasWorkspace: bool)

  /** A record that is attempted; when the write fails the turn goes on without it. */
  datatype Audit = Audit(name: string, executed: bool)

  /** The last gates need what the call is about: a workspace, a campaign the server can read, an enabled job kind. */
  predicate InScope(actor: Actor, port: Port, tool: Tool, arguments: string) {
    && (tool == ExplainRun ==> actor.hasWorkspace)
    && (tool == ProposeCampaignChange ==> port.campaignKnown(arguments) == Some(true))
    && (tool == ProposeMaintenanceJob ==> port.kindEnabled(arguments) == Some(true))
  }

  /** The read that the call comes to, when it comes to one, is rejected. */
  predicate ReadFails(actor: Actor, port: Port, tool: Tool, arguments: string) {
    match tool
    case GetSummary => port.read(tool, arguments).None?
    case ListIncidents => port.read(tool, arguments).None?
    case ExplainRun => actor.hasWorkspace && port.read(tool, arguments).None?
    case ProposePause => false
    case ProposeCampaignChange => port.campaignKnown(arguments).None?
    case ProposeMaintenanceJob => port.kindEnabled(arguments).None?
  }

  /** The outcome the gates allow for this call, reason by reason. */
  ghost predicate Gated(actor: Actor, port: Port, proposalsAllowed: bool, call: ToolCall, outcome: Outcome) {
    && (outcome == Refused(UnknownTool) <==> ToolNamed(call.name).None?)
    && (ToolNamed(call.name).Some? ==>
          var tool := ToolNamed(call.name).value;
          var tainted := IsProposalTool(tool) && !proposalsAllowed;
          var forbidden := IsOwnerOnly(tool) && !actor.isPlatformOwner;
          var valid := port.valid(tool, call.arguments);
          var fails := ReadFails(actor, port, tool, call.arguments);
          var inScope := InScope(actor, port, tool, call.arguments);
          && (outcome == Refused(ProposalsDisabled) <==> tainted)
          && (outcome == Refused(NotPermitted) <==> !tainted && (forbidden || (valid && !fails && !inScope)))
          && (outcome == Refused(InvalidArguments) <==> !tainted && !forbidden && !valid)
          && (outcome == Threw <==> !tainted && !forbidden && valid && fails)
          && (outcome.Executed? <==> !tainted && !forbidden && valid && !fails && inScope)
          && (outcome.Executed? ==> (outcome.proposal.Some? <==> IsProposalTool(tool)))
          && (outcome.Executed? && outcome.proposal.Some? ==>
                && outcome.result == port.payload(tool, call.arguments)
                && outcome.proposal.value == Proposal(tool, outcome.result))
          && (outcome.Executed? && outcome.proposal.None? ==> port.read(tool, call.arguments) == Some(outcome.result)))
  }

  // ---- the same, name by name ----

  /** A read: valid arguments, the scope it needs, and then what the rest of the system answers, if it answers. */
  ghost predicate ReadEnds(port: Port, tool: Tool, call: ToolCall, inScope: bool, outcome: Outcome) {
    outcome ==
      if !port.valid(tool, call.arguments) then Refused(InvalidArguments)
      else if !inScope then Refused(NotPermitted)
      else
        match port.read(tool, call.arguments)
        case None => Threw
        case Some(result) => Executed(result, None)
  }

  /** A proposal: only in an untainted turn, some only for the owner, and, where the server has to look the subject up,
      only about one it confirms; the model gets an echo of the payload the server composed. */
  ghost predicate ProposalEnds(port: Port, tool: Tool, call: ToolCall, proposalsAllowed: bool, permitted: bool,
                               confirmed: Option<bool>, outcome: Outcome) {
    outcome ==
      if !proposalsAllowed then Refused(ProposalsDisabled)
      else if !permitted then Refused(NotPermitted)
      else if !port.valid(tool, call.arguments) then Refused(InvalidArguments)
      else
        match confirmed
        case None => Threw
        case Some(false) => Refused(NotPermitted)
        case Some(true) =>
          Executed(port.payload(tool, call.arguments), Some(Proposal(tool, port.payload(tool, call.arguments))))
  }

  /** What each name a model can ask for comes to. */
  ghost predicate EndsByName(actor: Actor, port: Port, proposalsAllowed: bool, call: ToolCall, outcome: Outcome) {
    if call.name == "get_summary" then ReadEnds(port, GetSummary, call, true, outcome)
    else if call.name == "list_incidents" then ReadEnds(port, ListIncidents, call, true, outcome)
    else if call.name == "explain_run" then ReadEnds(port, ExplainRun, call, actor.hasWorkspace, outcome)
    else if call.name == "propose_pause" then
      ProposalEnds(port, ProposePause, call, proposalsAllowed, true, Some(true), outcome)
    else if call.name == "propose_campaign_change" then
      ProposalEnds(port, ProposeCampaignChange, call, proposalsAllowed, actor.isPlatformOwner,
                   port.campaignKnown(call.arguments), outcome)
    else if call.name == "propose_maintenance_job" then
      ProposalEnds(port, ProposeMaintenanceJob, call, proposalsAllowed, actor.isPlatformOwner,
                   port.kindEnabled(call.arguments), outcome)
    else outcome == Refused(UnknownTool)
  }

  /** The gates, tool by tool, are what each name comes to. */
  lemma {:induction false} GatedByName(actor: Actor, port: Port, proposalsAllowed: bool, call: ToolCall, outcome: Outcome)
    ensures Gated(actor, port, proposalsAllowed, call, outcome) <==> EndsByName(actor, port, proposalsAllowed, call, outcome)
  {
  }

  /** Unknown tool, then taint, then permission, then arguments, then scope; one audit record is attempted for every call
      that does not throw. */
  method DispatchToolCall(actor: Actor, port: Port, proposalsAllowed: bool, call: ToolCall)
    returns (outcome: Outcome, audit: seq<Audit>)
    ensures if outcome.Threw? then audit == [] else |audit| == 1 && audit[0].executed == outcome.Executed?
    ensures audit != [] ==>
      audit[0].name == if outcome == Refused(UnknownTool) && |call.name| > 60 then call.name[..60] else call.name
    ensures Gated(actor, port, proposalsAllowed, call, outcome)
    ensures EndsByName(actor, port, proposalsAllowed, call, outcome)
  {
    var known := ToolNamed(call.name);
    if known.None? {
      return Refused(UnknownTool), [Audit(if |call.name| > 60 then call.name[..60] else call.name, false)];
    }
    var tool := known.value;
    if IsProposalTool(tool) && !proposalsAllowed { return Refused(ProposalsDisabled), [Audit(call.name, false)]; }
    if IsOwnerOnly(tool) && !actor.isPlatformOwner { return Refused(NotPermitted), [Audit(call.name, false)]; }
    if !port.valid(tool, call.arguments) { return Refused(InvalidArguments), [Audit(call.name, false)]; }
    match tool {
      case GetSummary =>
        var summary := port.read(tool, call.arguments);
        if summary.None? { return Threw, []; }
        return Executed(summary.value, None), [Audit(call.name, true)];
      case ListIncidents =>
        var incidents := port.read(tool, call.arguments);
        if incidents.None? { return Threw, []; }
        return Executed(incidents.value, None), [Audit(call.name, true)];
      case ExplainRun =>
        if !actor.hasWorkspace { return Refused(NotPermitted), [Audit(call.name, false)]; }
        var explanation := port.read(tool, call.arguments);
        if explanation.None? { return Threw, []; }
        return Executed(explanation.value, None), [Audit(call.name, true)];
      case ProposePause =>
        var p := Proposal(tool, port.payload(tool, call.arguments));
        return Executed(p.payload, Some(p)), [Audit(call.name, true)];
      case ProposeCampaignChange =>
        var facts := port.campaignKnown(call.arguments);
        if facts.None? { return Threw, []; }
        if !facts.value { return Refused(NotPermitted), [Audit(call.name, false)]; }
        var p := Proposal(tool, port.payload(tool, call.arguments));
        return Executed(p.payload, Some(p)), [Audit(call.name, true)];
      case ProposeMaintenanceJob =>
        var enabled := port.kindEnabled(call.arguments);
        if enabled.None? { return Threw, []; }
        if !enabled.value { return Refused(NotPermitted), [Audit(call.name, false)]; }
        var p := Proposal(tool, port.payload(tool, call.arguments));
        return Executed(p.payload, Some(p)), [Audit(call.name, true)];
    }
  }
}
