/** Waiting for a session to become idle, and for an agent's turn to be over. */
module SessionWaiters {
  import opened Wrappers
  import opened SessionReplica

  datatype Outcome = Resolved | Archived | LostConnection | OutOfTime

  datatype IdleStatus = IsArchived | Idle | Busy

  /** checkIdleState: anything truthy that is not an object counts as an idle agent. */
  function CheckIdleState(metadata: Json, agentState: Json): IdleStatus {
    if Get(metadata, "lifecycleState") == Some(Str("archived")) then IsArchived
    else if !Truthy(agentState) then Busy
    else
      var requests := Get(agentState, "requests");
      var hasRequests := requests.Some? && requests.value.Obj? && requests.value.fields != map[];
      if Get(agentState, "controlledByUser") != Some(Bool(true)) && !hasRequests then Idle else Busy
  }

  datatype TurnEvent = TurnStart(turnId: Option<string>) | TurnEnd(turnId: Option<string>)

  /** The object under `content` of a message written by `role`. */
  function MessageBody(content: Json, role: string): Option<Json> {
    if Get(content, "role") == Some(Str(role)) && Get(content, "content").Some?
       && Get(content, "content").value.Obj? then Get(content, "content")
    else None
  }

  function GetIn(value: Json, outer: string, inner: string): Option<Json> {
    match Get(value, outer)
    case None => None
    case Some(child) => Get(child, inner)
  }

  function GetTurnEvent(content: Json): Option<TurnEvent> {
    match MessageBody(content, "session")
    case None => None
    case Some(body) =>
      var turn := Get(body, "turn");
      var turnId := if turn.Some? && turn.value.Str? then Some(turn.value.text) else None;
      var t := GetIn(body, "ev", "t");
      if t == Some(Str("turn-start")) then Some(TurnStart(turnId))
      else if t == Some(Str("turn-end")) then Some(TurnEnd(turnId))
      else None
  }

  predicate IsReadyEvent(content: Json) {
    match MessageBody(content, "agent")
    case None => false
    case Some(body) => Get(body, "type") == Some(Str("event")) && GetIn(body, "data", "type") == Some(Str("ready"))
  }

  /** No message is both: turn events are written by the session, ready events by the agent. */
  lemma NeverBoth(content: Json)
    ensures GetTurnEvent(content).Some? ==> !IsReadyEvent(content)
  {
    assert "session"[0] != "agent"[0];
  }

  // ---------- When a promise settles ----------

  /** What one event does to a promise that the events before it left pending. */
  type Verdict = (seq<Event>, Event) -> Option<Outcome>

  /** The promise after a trace: it settles at the first event that qualifies. */
  function Settlement(verdict: Verdict, trace: seq<Event>): Option<Outcome> {
    if trace == [] then None
    else
      var past := trace[..|trace| - 1];
      if Settlement(verdict, past).Some? then Settlement(verdict, past)
      else verdict(past, trace[|trace| - 1])
  }

  ghost predicate Pending(verdict: Verdict, trace: seq<Event>) {
    forall j {:trigger trace[..j]} :: 0 <= j < |trace| ==> verdict(trace[..j], trace[j]).None?
  }

  /** Event `i` qualifies and no event before it does. */
  ghost predicate SettlesAt(verdict: Verdict, trace: seq<Event>, i: nat, outcome: Outcome) {
    i < |trace| && Pending(verdict, trace[..i]) && verdict(trace[..i], trace[i]) == Some(outcome)
  }

  lemma {:induction false} SettlesFirst(verdict: Verdict, trace: seq<Event>, outcome: Outcome)
    ensures Settlement(verdict, trace) == Some(outcome) <==> exists i :: SettlesAt(verdict, trace, i, outcome)
    ensures Settlement(verdict, trace).None? <==> Pending(verdict, trace)
  {
    if trace != [] {
      var n := |trace| - 1;
      var past := trace[..n];
      SettlesFirst(verdict, past, outcome);
      assert trace[..n + 1] == trace;
      assert forall i :: 0 <= i <= n ==> past[..i] == trace[..i];
      assert Pending(verdict, trace) <==> Pending(verdict, past) && verdict(past, trace[n]).None?;
      forall i: nat | i < n ensures SettlesAt(verdict, trace, i, outcome) <==> SettlesAt(verdict, past, i, outcome) {
      }
      if SettlesAt(verdict, trace, n, outcome) {
        assert Pending(verdict, past);
      }
      if Settlement(verdict, past).Some? {
        forall o ensures Settlement(verdict, past) == Some(o) <==> exists i :: SettlesAt(verdict, past, i, o) {
          SettlesFirst(verdict, past, o);
        }
      }
    }
  }

  lemma AppendEvent(verdict: Verdict, past: seq<Event>, event: Event)
    ensures Settlement(verdict, past + [event]) ==
            if Settlement(verdict, past).Some? then Settlement(verdict, past) else verdict(past, event)
  {
    assert (past + [event])[..|past|] == past;
  }

  /** Whatever comes after the event that settles the promise is ignored. */
  lemma {:induction false} SettledStays(verdict: Verdict, trace: seq<Event>, more: seq<Event>)
    requires Settlement(verdict, trace).Some?
    ensures Settlement(verdict, trace + more) == Settlement(verdict, trace)
  {
    if more == [] {
      assert trace + more == trace;
    } else {
      assert (trace + more)[..|trace + more| - 1] == trace + more[..|more| - 1];
      SettledStays(verdict, trace, more[..|more| - 1]);
    }
  }

  // ---------- waitForIdle ----------

  /** The check made when waiting begins is the first event, a state change. */
  function IdleVerdict(past: seq<Event>, event: Event): Option<Outcome> {
    match event
    case Disconnected => Some(LostConnection)
    case TimedOut => Some(OutOfTime)
    case StateChange(metadata, agentState) =>
      (match CheckIdleState(metadata, agentState)
       case IsArchived => Some(Archived)
       case Idle => Some(Resolved)
       case Busy => None)
    case Message(_) => None
    case Error => None
  }

  // ---------- waitForTurnCompletion ----------

  predicate IsTurnStart(event: Event) {
    event.Message? && GetTurnEvent(event.content).Some? && GetTurnEvent(event.content).value.TurnStart?
  }

  predicate IsNonReadyMessage(event: Event) {
    event.Message? && !IsReadyEvent(event.content)
  }

  predicate AnyMessage(past: seq<Event>) {
    exists event :: event in past && event.Message?
  }

  predicate AnyTurnStart(past: seq<Event>) {
    exists event :: event in past && IsTurnStart(event)
  }

  predicate AnyNonReadyMessage(past: seq<Event>) {
    exists event :: event in past && IsNonReadyMessage(event)
  }

  /** The latest turn start, with the turn it names if it names one. */
  function LatestStart(past: seq<Event>): Option<Option<string>> {
    if past == [] then None
    else if IsTurnStart(past[|past| - 1]) then Some(GetTurnEvent(past[|past| - 1].content).value.turnId)
    else LatestStart(past[..|past| - 1])
  }

  function TurnVerdict(past: seq<Event>, event: Event): Option<Outcome> {
    match event
    case Disconnected => Some(LostConnection)
    case TimedOut => Some(OutOfTime)
    case Error => None
    case Message(content) =>
      if (match GetTurnEvent(content)
          case Some(TurnStart(_)) => false
          case Some(TurnEnd(id)) =>
            var start := LatestStart(past);
            start.None? || start.value.None? || id.None? || id == start.value
          case None => IsReadyEvent(content) && AnyNonReadyMessage(past))
      then Some(Resolved) else None
    case StateChange(metadata, agentState) =>
      if AnyMessage(past) && !AnyTurnStart(past) then
        match CheckIdleState(metadata, agentState)
        case IsArchived => Some(Archived)
        case Idle => Some(Resolved)
        case Busy => None
      else None
  }

  /** What one more event adds to the history; a turn start is never a ready event. */
  lemma {:induction false} OneMore(past: seq<Event>, event: Event)
    ensures var trace := past + [event];
            && AnyMessage(trace) == (AnyMessage(past) || event.Message?)
            && AnyTurnStart(trace) == (AnyTurnStart(past) || IsTurnStart(event))
            && AnyNonReadyMessage(trace) == (AnyNonReadyMessage(past) || IsNonReadyMessage(event))
            && LatestStart(trace) == (if IsTurnStart(event) then Some(GetTurnEvent(event.content).value.turnId)
                                      else LatestStart(past))
            && (Settlement(TurnVerdict, past).None? ==> Settlement(TurnVerdict, trace) == TurnVerdict(past, event))
            && (Settlement(TurnVerdict, past).Some? ==>
                  Settlement(TurnVerdict, trace) == Settlement(TurnVerdict, past))
    ensures AnyTurnStart(past) == LatestStart(past).Some?
    ensures AnyTurnStart(past) ==> AnyNonReadyMessage(past)
  {
    assert (past + [event])[..|past|] == past;
    AppendEvent(TurnVerdict, past, event);
    LatestStartExists(past);
    forall e | IsTurnStart(e) ensures IsNonReadyMessage(e) {
      NeverBoth(e.content);
    }
  }

  class TurnWaiter {
    var sawActivity: bool
    var activeTurnId: Option<string>
    var sawTurnStart: bool
    var sawNonReadyMessage: bool
    /** Some once the promise has settled and its listeners are gone. */
    var outcome: Option<Outcome>

    ghost var trace: seq<Event>

    /** The flags say what the declarative verdict reads off the whole trace, as long as it matters. */
    ghost predicate Valid()
      reads this
    {
      && outcome == Settlement(TurnVerdict, trace)
      && (outcome.None? ==>
            && sawActivity == AnyMessage(trace)
            && sawTurnStart == AnyTurnStart(trace)
            && sawNonReadyMessage == AnyNonReadyMessage(trace)
            && activeTurnId == (if LatestStart(trace).Some? then LatestStart(trace).value else None))
    }

    constructor ()
      ensures Valid() && trace == [] && outcome.None?
    {
      sawActivity, activeTurnId, sawTurnStart, sawNonReadyMessage := false, None, false, false;
      outcome, trace := None, [];
    }

    method OnMessage(content: Json)
      requires Valid()
      modifies this
      ensures Valid() && trace == old(trace) + [Message(content)]
    {
      OneMore(trace, Message(content));
      trace := trace + [Message(content)];
      if outcome.Some? {
        return;
      }
      sawActivity := true;
      var turnEvent := GetTurnEvent(content);
      if turnEvent.Some? {
        if turnEvent.value.TurnStart? {
          sawTurnStart := true;
          sawNonReadyMessage := true;
          activeTurnId := turnEvent.value.turnId;
          return;
        }
        if activeTurnId.None? || turnEvent.value.turnId.None? || turnEvent.value.turnId == activeTurnId {
          outcome := Some(Resolved);
        }
        return;
      }
      if IsReadyEvent(content) {
        if sawTurnStart || sawNonReadyMessage {
          outcome := Some(Resolved);
        }
        return;
      }
      sawNonReadyMessage := true;
    }

    method OnStateChange(metadata: Json, agentState: Json)
      requires Valid()
      modifies this
      ensures Valid() && trace == old(trace) + [StateChange(metadata, agentState)]
    {
      OneMore(trace, StateChange(metadata, agentState));
      trace := trace + [StateChange(metadata, agentState)];
      if outcome.Some? || !sawActivity || sawTurnStart {
        return;
      }
      match CheckIdleState(metadata, agentState) {
        case IsArchived => outcome := Some(Archived);
        case Idle => outcome := Some(Resolved);
        case Busy =>
      }
    }

    method OnDisconnect()
      requires Valid()
      modifies this
      ensures Valid() && trace == old(trace) + [Disconnected]
    {
      OneMore(trace, Disconnected);
      trace := trace + [Disconnected];
      if outcome.None? {
        outcome := Some(LostConnection);
      }
    }

    method OnTimeout()
      requires Valid()
      modifies this
      ensures Valid() && trace == old(trace) + [TimedOut]
    {
      OneMore(trace, TimedOut);
      trace := trace + [TimedOut];
      if outcome.None? {
        outcome := Some(OutOfTime);
      }
    }
  }

  /** Chatter and state changes that a turn in progress must survive. */
  predicate Noise(event: Event) {
    || (event.Message? && GetTurnEvent(event.content).None? && !IsReadyEvent(event.content))
    || event.StateChange? || event.Error?
  }

  /** While a named turn runs, idle reports and other messages settle nothing; its own end resolves the wait. */
  lemma {:induction false} NamedTurnRunsToItsEnd(trace: seq<Event>, id: string, noise: seq<Event>, end: Json)
    requires Settlement(TurnVerdict, trace).None? && LatestStart(trace) == Some(Some(id))
    requires forall event :: event in noise ==> Noise(event)
    requires GetTurnEvent(end).Some? && GetTurnEvent(end).value.TurnEnd?
    ensures Settlement(TurnVerdict, trace + noise).None? && LatestStart(trace + noise) == Some(Some(id))
    ensures Settlement(TurnVerdict, trace + noise + [Message(end)]) ==
            if GetTurnEvent(end).value.turnId in [None, Some(id)] then Some(Resolved) else None
  {
    NoiseKeeps(trace, id, noise);
    OneMore(trace + noise, Message(end));
  }

  lemma NoiseStep(trace: seq<Event>, id: string, event: Event)
    requires Settlement(TurnVerdict, trace).None? && LatestStart(trace) == Some(Some(id)) && Noise(event)
    ensures Settlement(TurnVerdict, trace + [event]).None? && LatestStart(trace + [event]) == Some(Some(id))
  {
    OneMore(trace, event);
  }

  lemma {:induction false} LatestStartExists(past: seq<Event>)
    ensures LatestStart(past).Some? == AnyTurnStart(past)
  {
    if past != [] {
      var n := |past| - 1;
      LatestStartExists(past[..n]);
      assert past == past[..n] + [past[n]];
    }
  }

  lemma {:induction false} NoiseKeeps(trace: seq<Event>, id: string, noise: seq<Event>)
    requires Settlement(TurnVerdict, trace).None? && LatestStart(trace) == Some(Some(id))
    requires forall event :: event in noise ==> Noise(event)
    ensures Settlement(TurnVerdict, trace + noise).None? && LatestStart(trace + noise) == Some(Some(id))
  {
    if noise == [] {
      assert trace + noise == trace;
    } else {
      var n := |noise| - 1;
      NoiseKeeps(trace, id, noise[..n]);
      assert trace + noise == (trace + noise[..n]) + [noise[n]];
      NoiseStep(trace + noise[..n], id, noise[n]);
    }
  }

  // ---------- waitForIdle on a live replica ----------

  class IdleWaiter {
    const client: SessionClient
    var outcome: Option<Outcome>

    ghost var trace: seq<Event>

    ghost predicate Valid()
      reads this
    {
      outcome == Settlement(IdleVerdict, trace)
    }

    constructor (client: SessionClient)
      ensures Valid() && this.client == client
      ensures trace == [StateChange(client.metadata, client.agentState)]
    {
      this.client := client;
      trace := [StateChange(client.metadata, client.agentState)];
      match CheckIdleState(client.metadata, client.agentState) {
        case IsArchived => outcome := Some(Archived);
        case Idle => outcome := Some(Resolved);
        case Busy => outcome := None;
      }
    }

    method OnStateChange()
      requires Valid()
      modifies this
      ensures Valid() && trace == old(trace) + [StateChange(client.metadata, client.agentState)]
    {
      ghost var past := trace;
      trace := trace + [StateChange(client.metadata, client.agentState)];
      assert trace[..|trace| - 1] == past;
      if outcome.None? {
        match CheckIdleState(client.metadata, client.agentState) {
          case IsArchived => outcome := Some(Archived);
          case Idle => outcome := Some(Resolved);
          case Busy =>
        }
      }
    }

    method OnDisconnect()
      requires Valid()
      modifies this
      ensures Valid() && trace == old(trace) + [Disconnected]
    {
      trace := trace + [Disconnected];
      assert trace[..|trace| - 1] == old(trace);
      if outcome.None? {
        outcome := Some(LostConnection);
      }
    }

    method OnTimeout()
      requires Valid()
      modifies this
      ensures Valid() && trace == old(trace) + [TimedOut]
    {
      trace := trace + [TimedOut];
      assert trace[..|trace| - 1] == old(trace);
      if outcome.None? {
        outcome := Some(OutOfTime);
      }
    }
  }

  datatype Input = Update(body: Body) | Disconnect | Timeout

  function After(r: Replica, inputs: seq<Input>): Replica {
    if inputs == [] then r
    else
      var r' := After(r, inputs[..|inputs| - 1]);
      var last := inputs[|inputs| - 1];
      if last.Update? then Apply(r', last.body) else r'
  }

  /** What a waiter hears that starts on replica `r`: the state it finds, then the client's events. */
  function Heard(r: Replica, inputs: seq<Input>): seq<Event> {
    if inputs == [] then [StateChange(r.metadata.value, r.agentState.value)]
    else
      var n := |inputs| - 1;
      var before := Heard(r, inputs[..n]);
      match inputs[n]
      case Disconnect => before + [Disconnected]
      case Timeout => before + [TimedOut]
      case Update(body) =>
        match Emits(After(r, inputs[..n]), body)
        case Some(event) => before + [event]
        case None => before
  }

  function IdleOutcome(r: Replica, inputs: seq<Input>): Option<Outcome> {
    Settlement(IdleVerdict, Heard(r, inputs))
  }

  function Status(r: Replica): IdleStatus {
    CheckIdleState(r.metadata.value, r.agentState.value)
  }

  /** A state change announces the replica that the update has led to. */
  lemma AnnouncesCurrent(r: Replica, body: Body)
    requires Emits(r, body).Some?
    ensures var event, r' := Emits(r, body).value, Apply(r, body);
            && !event.Disconnected? && !event.TimedOut?
            && (event.StateChange? ==> event.metadata == r'.metadata.value && event.agentState == r'.agentState.value)
  {
  }

  lemma VerdictOnStatus(past: seq<Event>, event: Event, status: IdleStatus)
    requires event.StateChange? ==> status == CheckIdleState(event.metadata, event.agentState)
    ensures IdleVerdict(past, event) == Some(Resolved) <==> event.StateChange? && status == Idle
    ensures IdleVerdict(past, event) == Some(Archived) <==> event.StateChange? && status == IsArchived
    ensures IdleVerdict(past, event) == Some(LostConnection) <==> event == Disconnected
    ensures IdleVerdict(past, event) == Some(OutOfTime) <==> event == TimedOut
  {
  }

  predicate Announces(r: Replica, input: Input) {
    input.Update? && Emits(r, input.body).Some? && Emits(r, input.body).value.StateChange?
  }

  /** One input turns a pending wait into a resolved one exactly when it announces a replica that is idle. */
  lemma IdleStep(r: Replica, inputs: seq<Input>, n: nat)
    requires |inputs| == n + 1 && IdleOutcome(r, inputs[..n]).None?
    ensures var announced := Announces(After(r, inputs[..n]), inputs[n]);
            && (IdleOutcome(r, inputs) == Some(Resolved) <==> announced && Status(After(r, inputs)) == Idle)
            && (IdleOutcome(r, inputs) == Some(Archived) <==> announced && Status(After(r, inputs)) == IsArchived)
            && (IdleOutcome(r, inputs) == Some(LostConnection) <==> inputs[n] == Disconnect)
            && (IdleOutcome(r, inputs) == Some(OutOfTime) <==> inputs[n] == Timeout)
  {
    var before := Heard(r, inputs[..n]);
    var status := Status(After(r, inputs));
    match inputs[n] {
      case Disconnect =>
        AppendEvent(IdleVerdict, before, Disconnected);
        VerdictOnStatus(before, Disconnected, status);
      case Timeout =>
        AppendEvent(IdleVerdict, before, TimedOut);
        VerdictOnStatus(before, TimedOut, status);
      case Update(body) =>
        var r' := After(r, inputs[..n]);
        if Emits(r', body).Some? {
          var event := Emits(r', body).value;
          AnnouncesCurrent(r', body);
          AppendEvent(IdleVerdict, before, event);
          VerdictOnStatus(before, event, status);
        }
    }
  }

  lemma IdleAtOnce(r: Replica)
    ensures IdleOutcome(r, []) == match Status(r) case IsArchived => Some(Archived) case Idle => Some(Resolved) case Busy => None
  {
    var heard := Heard(r, []);
    assert heard[..0] == [];
    assert Settlement(IdleVerdict, []).None?;
  }

  lemma IdleStays(r: Replica, inputs: seq<Input>, n: nat)
    requires |inputs| == n + 1 && IdleOutcome(r, inputs[..n]).Some?
    ensures IdleOutcome(r, inputs) == IdleOutcome(r, inputs[..n])
  {
    var before, after := Heard(r, inputs[..n]), Heard(r, inputs);
    if after != before {
      assert after[..|after| - 1] == before;
    }
  }

  /** The wait resolves only while the replica is idle, and rejects as archived only while it is archived. */
  lemma {:induction false} IdleOnlyWhenIdle(r: Replica, inputs: seq<Input>) returns (k: nat)
    requires IdleOutcome(r, inputs) == Some(Resolved) || IdleOutcome(r, inputs) == Some(Archived)
    ensures k <= |inputs| && IdleOutcome(r, inputs[..k]) == IdleOutcome(r, inputs)
    ensures k > 0 ==> IdleOutcome(r, inputs[..k - 1]).None?
    ensures IdleOutcome(r, inputs) == Some(Resolved) ==> Status(After(r, inputs[..k])) == Idle
    ensures IdleOutcome(r, inputs) == Some(Archived) ==> Status(After(r, inputs[..k])) == IsArchived
  {
    if inputs == [] {
      k := 0;
      IdleAtOnce(r);
      assert inputs[..0] == [];
    } else {
      var n := |inputs| - 1;
      var before := inputs[..n];
      if IdleOutcome(r, before).None? {
        k := n + 1;
        assert inputs[..k] == inputs;
        IdleStep(r, inputs, n);
      } else {
        IdleStays(r, inputs, n);
        k := IdleOnlyWhenIdle(r, before);
        assert before[..k] == inputs[..k];
        assert k > 0 ==> before[..k - 1] == inputs[..k - 1];
      }
    }
  }

  /**
   * Not every change is announced: an update changes the replica without a state change exactly when it
   * brings newer metadata that decodes together with a newer agent state that does not.
   */
  lemma UnannouncedChange(r: Replica, body: Body)
    ensures Apply(r, body) != r && !(Emits(r, body).Some? && Emits(r, body).value.StateChange?) <==>
            && body.UpdateSession? && body.metadata.Some? && body.agentState.Some?
            && body.metadata.value.version > r.metadata.version && body.metadata.value.value.Text?
            && body.agentState.value.version > r.agentState.version && body.agentState.value.value == NotText
  {
  }

  /** So a session can be archived while a wait for it goes on. */
  lemma SilentlyArchived(agentState: Json) returns (r: Replica, inputs: seq<Input>)
    requires Status(Initial(Some(agentState))) == Busy
    ensures r == Initial(Some(agentState))
    ensures Status(After(r, inputs)) == IsArchived && IdleOutcome(r, inputs).None?
  {
    r := Initial(Some(agentState));
    var archived := Obj(map["lifecycleState" := Str("archived")]);
    var body := UpdateSession(Some(Versioned(1, Text(archived))), Some(Versioned(1, NotText)));
    inputs := [Update(body)];
    assert inputs[..0] == [];
    assert After(r, inputs) == Apply(r, body);
    assert Emits(r, body) == Some(Error);
    var start := StateChange(r.metadata.value, r.agentState.value);
    assert Heard(r, inputs) == [start] + [Error];
    assert ([start] + [Error])[..1] == [start] && [start][..0] == [];
    assert Settlement(IdleVerdict, [start]).None?;
  }
}
