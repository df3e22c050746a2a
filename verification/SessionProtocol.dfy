/** What the two waits make of messages and states, read off their fields. */
module SessionProtocol {
  import opened Wrappers
  import opened SessionReplica
  import opened SessionWaiters

  // ---------- Messages and states by their fields ----------

  /** A message of the session itself about an event, whatever other fields it has. */
  predicate SessionEvent(content: Json, t: string) {
    && content.Obj? && "role" in content.fields && content.fields["role"] == Str("session")
    && "content" in content.fields && content.fields["content"].Obj?
    && var body := content.fields["content"].fields;
       "ev" in body && body["ev"].Obj? && "t" in body["ev"].fields && body["ev"].fields["t"] == Str(t)
  }

  /** The turn such a message names, if its `turn` is a string. */
  predicate NamesTurn(content: Json, turn: string) {
    && content.Obj? && "content" in content.fields && content.fields["content"].Obj?
    && "turn" in content.fields["content"].fields && content.fields["content"].fields["turn"] == Str(turn)
  }

  predicate NamesNoTurn(content: Json) {
    && content.Obj? && "content" in content.fields && content.fields["content"].Obj?
    && ("turn" in content.fields["content"].fields ==> !content.fields["content"].fields["turn"].Str?)
  }

  /** The agent's message that it is ready. */
  predicate AgentReady(content: Json) {
    && content.Obj? && "role" in content.fields && content.fields["role"] == Str("agent")
    && "content" in content.fields && content.fields["content"].Obj?
    && var body := content.fields["content"].fields;
       && "type" in body && body["type"] == Str("event")
       && "data" in body && body["data"].Obj? && "type" in body["data"].fields && body["data"].fields["type"] == Str("ready")
  }

  predicate ArchivedFields(metadata: Json) {
    metadata.Obj? && "lifecycleState" in metadata.fields && metadata.fields["lifecycleState"] == Str("archived")
  }

  predicate PendingRequests(agentState: Json) {
    && agentState.Obj? && "requests" in agentState.fields
    && agentState.fields["requests"].Obj? && agentState.fields["requests"].fields != map[]
  }

  predicate UserControls(agentState: Json) {
    agentState.Obj? && "controlledByUser" in agentState.fields && agentState.fields["controlledByUser"] == Bool(true)
  }

  predicate NoAgentState(agentState: Json) {
    agentState == Null || agentState == Bool(false) || agentState == Num(0.0) || agentState == Str("")
  }

  predicate IdleFields(agentState: Json) {
    !NoAgentState(agentState) && !PendingRequests(agentState) && !UserControls(agentState)
  }

  // ---------- The classifiers read those fields ----------

  lemma ReadsSessionEvent(content: Json)
    ensures SessionEvent(content, "turn-start") <==> GetTurnEvent(content).Some? && GetTurnEvent(content).value.TurnStart?
    ensures SessionEvent(content, "turn-end") <==> GetTurnEvent(content).Some? && GetTurnEvent(content).value.TurnEnd?
  {
    assert "turn-start"[5] != "turn-end"[5];
  }

  lemma ReadsTurn(content: Json)
    requires GetTurnEvent(content).Some?
    ensures forall turn :: GetTurnEvent(content).value.turnId == Some(turn) <==> NamesTurn(content, turn)
    ensures GetTurnEvent(content).value.turnId.None? <==> NamesNoTurn(content)
  {
  }

  lemma ReadsReady(content: Json)
    ensures AgentReady(content) <==> IsReadyEvent(content)
  {
  }

  lemma ReadsStatus(metadata: Json, agentState: Json)
    ensures CheckIdleState(metadata, agentState) ==
            if ArchivedFields(metadata) then IsArchived else if IdleFields(agentState) then Idle else Busy
  {
  }

  // ---------- waitForTurnCompletion ----------

  predicate NoTurnStart(trace: seq<Event>) {
    forall event :: event in trace && event.Message? ==> !SessionEvent(event.content, "turn-start")
  }

  lemma ReadsStarts(trace: seq<Event>)
    ensures NoTurnStart(trace) <==> !AnyTurnStart(trace)
  {
    forall event | event in trace && event.Message?
      ensures SessionEvent(event.content, "turn-start") <==> IsTurnStart(event)
    {
      ReadsSessionEvent(event.content);
    }
  }

  /** A turn that starts never ends the wait. */
  lemma StartSettlesNothing(trace: seq<Event>, start: Json)
    requires Settlement(TurnVerdict, trace).None? && SessionEvent(start, "turn-start")
    ensures Settlement(TurnVerdict, trace + [Message(start)]).None?
  {
    ReadsSessionEvent(start);
    OneMore(trace, Message(start));
  }

  /** Events that say nothing about turns: state changes, and messages of neither the session nor the agent. */
  predicate Bystander(event: Event) {
    || event.StateChange? || event.Error?
    || (event.Message? && !SessionEvent(event.content, "turn-start") && !SessionEvent(event.content, "turn-end")
        && !AgentReady(event.content))
  }

  lemma BystanderSettles(trace: seq<Event>, event: Event, id: Option<string>)
    requires Settlement(TurnVerdict, trace).None? && LatestStart(trace) == Some(id) && Bystander(event)
    ensures Settlement(TurnVerdict, trace + [event]).None? && LatestStart(trace + [event]) == Some(id)
  {
    OneMore(trace, event);
    if event.Message? {
      ReadsSessionEvent(event.content);
      ReadsReady(event.content);
    }
  }

  lemma {:induction false} BystandersSettle(trace: seq<Event>, events: seq<Event>, id: Option<string>)
    requires Settlement(TurnVerdict, trace).None? && LatestStart(trace) == Some(id)
    requires forall event :: event in events ==> Bystander(event)
    ensures Settlement(TurnVerdict, trace + events).None? && LatestStart(trace + events) == Some(id)
  {
    if events == [] {
      assert trace + events == trace;
    } else {
      var n := |events| - 1;
      BystandersSettle(trace, events[..n], id);
      assert trace + events == (trace + events[..n]) + [events[n]];
      BystanderSettles(trace + events[..n], events[n], id);
    }
  }

  /**
   * After a turn has started, and whatever bystanders come between, a turn's end resolves the wait exactly
   * when one of the two names no turn or both name the same.
   */
  lemma EndOfTurn(trace: seq<Event>, start: Json, between: seq<Event>, end: Json)
    requires Settlement(TurnVerdict, trace).None?
    requires SessionEvent(start, "turn-start") && SessionEvent(end, "turn-end")
    requires forall event :: event in between ==> Bystander(event)
    ensures Settlement(TurnVerdict, trace + [Message(start)] + between).None?
    ensures var outcome := Settlement(TurnVerdict, trace + [Message(start)] + between + [Message(end)]);
            && (outcome == Some(Resolved) || outcome == None)
            && (outcome == Some(Resolved) <==>
                  || NamesNoTurn(start) || NamesNoTurn(end)
                  || exists turn :: NamesTurn(start, turn) && NamesTurn(end, turn))
  {
    ReadsSessionEvent(start);
    ReadsSessionEvent(end);
    ReadsTurn(start);
    ReadsTurn(end);
    StartSettlesNothing(trace, start);
    OneMore(trace, Message(start));
    var id := GetTurnEvent(start).value.turnId;
    BystandersSettle(trace + [Message(start)], between, id);
    OneMore(trace + [Message(start)] + between, Message(end));
    if id.Some? && id == GetTurnEvent(end).value.turnId {
      assert NamesTurn(start, id.value) && NamesTurn(end, id.value);
    }
  }

  /** A turn's end with no start before it resolves the wait. */
  lemma EndWithoutStart(trace: seq<Event>, end: Json)
    requires Settlement(TurnVerdict, trace).None? && NoTurnStart(trace) && SessionEvent(end, "turn-end")
    ensures Settlement(TurnVerdict, trace + [Message(end)]) == Some(Resolved)
  {
    ReadsStarts(trace);
    LatestStartExists(trace);
    ReadsSessionEvent(end);
    OneMore(trace, Message(end));
  }

  /** The agent's ready message resolves the wait exactly when some other message came before it. */
  lemma ReadyNeedsAMessage(trace: seq<Event>, ready: Json)
    requires Settlement(TurnVerdict, trace).None? && AgentReady(ready)
    ensures var outcome := Settlement(TurnVerdict, trace + [Message(ready)]);
            && (outcome == Some(Resolved) || outcome == None)
            && (outcome == Some(Resolved) <==>
                  exists event :: event in trace && event.Message? && !AgentReady(event.content))
  {
    ReadsReady(ready);
    NeverBoth(ready);
    OneMore(trace, Message(ready));
    forall event | event in trace && event.Message?
      ensures IsNonReadyMessage(event) <==> !AgentReady(event.content)
    {
      ReadsReady(event.content);
    }
  }

  /** No other message settles anything. */
  lemma OtherMessages(trace: seq<Event>, content: Json)
    requires Settlement(TurnVerdict, trace).None?
    requires !SessionEvent(content, "turn-end") && !AgentReady(content)
    ensures Settlement(TurnVerdict, trace + [Message(content)]).None?
  {
    ReadsSessionEvent(content);
    ReadsReady(content);
    OneMore(trace, Message(content));
  }

  /** A state change settles the wait only after a message and before any turn's start, and then by its fields. */
  lemma StateChangeSettles(trace: seq<Event>, metadata: Json, agentState: Json)
    requires Settlement(TurnVerdict, trace).None?
    ensures Settlement(TurnVerdict, trace + [StateChange(metadata, agentState)]) ==
            if (forall event :: event in trace ==> !event.Message?) || !NoTurnStart(trace) then None
            else if ArchivedFields(metadata) then Some(Archived)
            else if IdleFields(agentState) then Some(Resolved)
            else None
  {
    ReadsStarts(trace);
    ReadsStatus(metadata, agentState);
    OneMore(trace, StateChange(metadata, agentState));
  }

  /** Losing the connection and running out of time reject either wait at any moment. */
  lemma Interrupted(trace: seq<Event>)
    ensures Settlement(TurnVerdict, trace).None? ==>
              && Settlement(TurnVerdict, trace + [Disconnected]) == Some(LostConnection)
              && Settlement(TurnVerdict, trace + [TimedOut]) == Some(OutOfTime)
    ensures Settlement(IdleVerdict, trace).None? ==>
              && Settlement(IdleVerdict, trace + [Disconnected]) == Some(LostConnection)
              && Settlement(IdleVerdict, trace + [TimedOut]) == Some(OutOfTime)
  {
    AppendEvent(TurnVerdict, trace, Disconnected);
    AppendEvent(TurnVerdict, trace, TimedOut);
    AppendEvent(IdleVerdict, trace, Disconnected);
    AppendEvent(IdleVerdict, trace, TimedOut);
  }

  // ---------- waitForIdle ----------

  /** What a session with these fields does to a pending wait for idleness. */
  function OutcomeByFields(metadata: Json, agentState: Json): Option<Outcome> {
    if ArchivedFields(metadata) then Some(Archived) else if IdleFields(agentState) then Some(Resolved) else None
  }

  /** The check made when waiting begins. */
  lemma IdleAtOnceByFields(r: Replica)
    ensures IdleOutcome(r, []) == OutcomeByFields(r.metadata.value, r.agentState.value)
  {
    ReadsStatus(r.metadata.value, r.agentState.value);
    IdleAtOnce(r);
  }

  /** An update whose values decode. */
  predicate Decodes(body: Body) {
    && body.UpdateSession?
    && (body.metadata.Some? ==> body.metadata.value.value.Text?)
    && (body.agentState.Some? ==> body.agentState.value.value != NotText)
  }

  /** An update settles a pending wait by the fields of the session it has led to. */
  lemma IdleByFields(r: Replica, inputs: seq<Input>, n: nat)
    requires |inputs| == n + 1 && IdleOutcome(r, inputs[..n]).None?
    requires inputs[n].Update? && Decodes(inputs[n].body)
    ensures var after := After(r, inputs);
            IdleOutcome(r, inputs) == OutcomeByFields(after.metadata.value, after.agentState.value)
  {
    var before, after := After(r, inputs[..n]), After(r, inputs);
    DecodesAnnounces(before, inputs[n].body);
    ReadsStatus(after.metadata.value, after.agentState.value);
    AnnouncesCurrent(before, inputs[n].body);
    AppendEvent(IdleVerdict, Heard(r, inputs[..n]), Emits(before, inputs[n].body).value);
  }

  lemma DecodesAnnounces(r: Replica, body: Body)
    requires Decodes(body)
    ensures Emits(r, body).Some? && Emits(r, body).value.StateChange?
  {
  }
}
