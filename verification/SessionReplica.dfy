/** A session client's copy of the session: two versioned cells, each updated by the newest version seen. */
module SessionReplica {
  import opened Wrappers

  datatype Json =
    | Null
    | Bool(flag: bool)
    | Num(number: real)
    | Str(text: string)
    | Arr(items: seq<Json>)
    | Obj(fields: map<string, Json>)

  /** `value?.key`, with None for undefined; only plain objects carry the keys read here. */
  function Get(value: Json, key: string): Option<Json> {
    if value.Obj? && key in value.fields then Some(value.fields[key]) else None
  }

  predicate Truthy(value: Json) {
    match value
    case Null => false
    case Bool(flag) => flag
    case Num(number) => number != 0.0
    case Str(text) => text != ""
    case Arr(_) => true
    case Obj(_) => true
  }

  // ---------- Updates ----------

  /**
   * A value on the wire. A base64 text stands for what decrypting it gives, Null when that fails;
   * `NotText` is a truthy value that the base64 decoder throws on.
   */
  datatype WireValue = Missing | NotText | Text(plain: Json)

  datatype Versioned = Versioned(version: int, value: WireValue)

  datatype Body =
    | NewMessage(sealed: WireValue)
    | UpdateSession(metadata: Option<Versioned>, agentState: Option<Versioned>)
    | OtherBody

  datatype Cell = Cell(value: Json, version: int)

  datatype Replica = Replica(metadata: Cell, agentState: Cell)

  datatype Event =
    | Message(content: Json)
    | StateChange(metadata: Json, agentState: Json)
    | Error
    | Disconnected
    | TimedOut

  /** Metadata must decode: a missing value throws. */
  function OpenMetadata(value: WireValue): Option<Json> {
    if value.Text? then Some(value.plain) else None
  }

  /** A missing agent state is null; any other value must decode. */
  function OpenAgentState(value: WireValue): Option<Json> {
    match value
    case Missing => Some(Null)
    case NotText => None
    case Text(plain) => Some(plain)
  }

  class SessionClient {
    var metadata: Json
    var metadataVersion: int
    var agentState: Json
    var agentStateVersion: int

    ghost function State(): Replica
      reads this
    {
      Replica(Cell(metadata, metadataVersion), Cell(agentState, agentStateVersion))
    }

    constructor (initialAgentState: Option<Json>)
      ensures State() == Initial(initialAgentState)
      ensures metadata == Null && metadataVersion == 0 && agentStateVersion == 0
      ensures agentState == if initialAgentState.Some? then initialAgentState.value else Null
    {
      metadata, metadataVersion := Null, 0;
      agentState, agentStateVersion := if initialAgentState.Some? then initialAgentState.value else Null, 0;
    }

    /** The socket's `update` listener: at most one event is emitted. */
    method OnUpdate(body: Body) returns (emitted: Option<Event>)
      modifies this
      ensures State() == Apply(old(State()), body)
      ensures emitted == Emits(old(State()), body)
      // A message is passed on unless it decrypts to nothing, and changes no state.
      ensures body.NewMessage? || body.OtherBody? ==> State() == old(State())
      ensures body.OtherBody? ==> emitted == None
      ensures body.NewMessage? && !body.sealed.Text? ==> emitted == Some(Error)
      ensures body.NewMessage? && body.sealed.Text? ==>
                emitted == if body.sealed.plain == Null then None else Some(Message(body.sealed.plain))
      // Newer metadata that cannot be decoded stops the update.
      ensures body.UpdateSession? && body.metadata.Some? && body.metadata.value.version > old(metadataVersion)
              && !body.metadata.value.value.Text? ==>
                State() == old(State()) && emitted == Some(Error)
      // Newer metadata is taken, older metadata is not.
      ensures body.UpdateSession? && body.metadata.Some? && body.metadata.value.version > old(metadataVersion)
              && body.metadata.value.value.Text? ==>
                metadata == body.metadata.value.value.plain && metadataVersion == body.metadata.value.version
      ensures body.UpdateSession? && (body.metadata.None? || body.metadata.value.version <= old(metadataVersion)) ==>
                metadata == old(metadata) && metadataVersion == old(metadataVersion)
      // If the metadata did not stop it, so is the agent state; a missing one is null.
      ensures body.UpdateSession? && (body.agentState.None? || body.agentState.value.version <= old(agentStateVersion)) ==>
                agentState == old(agentState) && agentStateVersion == old(agentStateVersion)
      ensures body.UpdateSession? && (body.metadata.Some? && body.metadata.value.version > old(metadataVersion) ==> body.metadata.value.value.Text?)
              && body.agentState.Some? && body.agentState.value.version > old(agentStateVersion) ==>
                match body.agentState.value.value
                case NotText => emitted == Some(Error) && agentState == old(agentState) && agentStateVersion == old(agentStateVersion)
                case Missing => agentState == Null && agentStateVersion == body.agentState.value.version
                case Text(plain) => agentState == plain && agentStateVersion == body.agentState.value.version
      // An update that nothing stopped is announced with the values it has led to.
      ensures body.UpdateSession? && (body.metadata.Some? && body.metadata.value.version > old(metadataVersion) ==> body.metadata.value.value.Text?)
              && (body.agentState.Some? && body.agentState.value.version > old(agentStateVersion) ==>
                    body.agentState.value.value != NotText) ==>
                emitted == Some(StateChange(metadata, agentState))
    {
      if body.NewMessage? {
        var plain := OpenMetadata(body.sealed);
        if plain.None? {
          return Some(Error);
        }
        return if plain.value == Null then None else Some(Message(plain.value));
      }
      if body.OtherBody? {
        return None;
      }
      if body.metadata.Some? && body.metadata.value.version > metadataVersion {
        var plain := OpenMetadata(body.metadata.value.value);
        if plain.None? {
          return Some(Error);
        }
        metadata := plain.value;
        metadataVersion := body.metadata.value.version;
      }
      if body.agentState.Some? && body.agentState.value.version > agentStateVersion {
        var plain := OpenAgentState(body.agentState.value.value);
        if plain.None? {
          return Some(Error);
        }
        agentState := plain.value;
        agentStateVersion := body.agentState.value.version;
      }
      emitted := Some(StateChange(metadata, agentState));
    }
  }

  function Initial(initialAgentState: Option<Json>): Replica {
    Replica(Cell(Null, 0), Cell(if initialAgentState.Some? then initialAgentState.value else Null, 0))
  }

  // ---------- One update as a function ----------

  /** Does metadata that cannot be decoded make the update throw before it looks at the agent state? */
  predicate Throws(metadataVersion: int, body: Body) {
    && body.UpdateSession? && body.metadata.Some?
    && body.metadata.value.version > metadataVersion && OpenMetadata(body.metadata.value.value).None?
  }

  /** The metadata of an update that decodes. */
  function GoodMetadata(body: Body): Option<Cell> {
    if body.UpdateSession? && body.metadata.Some? && OpenMetadata(body.metadata.value.value).Some? then
      Some(Cell(OpenMetadata(body.metadata.value.value).value, body.metadata.value.version))
    else None
  }

  /** The agent state of an update that decodes. */
  function GoodAgentState(body: Body): Option<Cell> {
    if body.UpdateSession? && body.agentState.Some? && OpenAgentState(body.agentState.value.value).Some? then
      Some(Cell(OpenAgentState(body.agentState.value.value).value, body.agentState.value.version))
    else None
  }

  function Newer(cell: Cell, offer: Option<Cell>): Cell {
    if offer.Some? && offer.value.version > cell.version then offer.value else cell
  }

  function Apply(r: Replica, body: Body): Replica {
    if Throws(r.metadata.version, body) then r
    else Replica(Newer(r.metadata, GoodMetadata(body)), Newer(r.agentState, GoodAgentState(body)))
  }

  function Emits(r: Replica, body: Body): Option<Event> {
    match body
    case NewMessage(sealed) =>
      (match OpenMetadata(sealed)
       case None => Some(Error)
       case Some(plain) => if plain == Null then None else Some(Message(plain)))
    case OtherBody => None
    case UpdateSession(_, agentState) =>
      if Throws(r.metadata.version, body) then Some(Error)
      else if agentState.Some? && agentState.value.version > r.agentState.version
              && OpenAgentState(agentState.value.value).None? then Some(Error)
      else Some(StateChange(Apply(r, body).metadata.value, Apply(r, body).agentState.value))
  }

  function ApplyAll(r: Replica, bodies: seq<Body>): Replica {
    if bodies == [] then r
    else Apply(ApplyAll(r, bodies[..|bodies| - 1]), bodies[|bodies| - 1])
  }

  // ---------- Reordering and duplication ----------

  /** A version determines its value, in the metadata and in the agent state. */
  ghost predicate Consistent(bodies: seq<Body>) {
    forall a, b :: a in bodies && b in bodies && a.UpdateSession? && b.UpdateSession? ==>
      && (a.metadata.Some? && b.metadata.Some? && a.metadata.value.version == b.metadata.value.version ==>
            a.metadata == b.metadata)
      && (a.agentState.Some? && b.agentState.Some? && a.agentState.value.version == b.agentState.value.version ==>
            a.agentState == b.agentState)
  }

  ghost predicate SameUpdates(a: seq<Body>, b: seq<Body>) {
    forall body :: body in a <==> body in b
  }

  /** Some update in the list carries metadata that decodes, of at least this version. */
  ghost predicate Reached(bodies: seq<Body>, version: int) {
    exists b :: b in bodies && GoodMetadata(b).Some? && GoodMetadata(b).value.version >= version
  }

  /** Malformed metadata throws or not depending on what arrived before it. */
  ghost predicate Wavers(r: Replica, bodies: seq<Body>, body: Body) {
    Throws(r.metadata.version, body) && Reached(bodies, body.metadata.value.version)
  }

  /** An agent state that arrives whatever the order. */
  ghost predicate Steady(r: Replica, body: Body) {
    GoodAgentState(body).Some? && !Throws(r.metadata.version, body)
  }

  /** An agent state that arrives in some order. */
  ghost predicate Eligible(r: Replica, bodies: seq<Body>, body: Body) {
    GoodAgentState(body).Some? && (!Throws(r.metadata.version, body) || Wavers(r, bodies, body))
  }

  /** Malformed metadata that wavers, and with it an agent state newer than every steady one. */
  ghost predicate Hides(r: Replica, bodies: seq<Body>, body: Body) {
    && Wavers(r, bodies, body) && GoodAgentState(body).Some?
    && GoodAgentState(body).value.version > r.agentState.version
    && forall s :: s in bodies && Steady(r, s) ==>
         GoodAgentState(s).value.version < GoodAgentState(body).value.version
  }

  ghost predicate NothingHidden(r: Replica, bodies: seq<Body>) {
    forall b :: b in bodies ==> !Hides(r, bodies, b)
  }

  /** The cell holds the newest metadata among the updates, or what it held at the start. */
  ghost predicate LatestMetadata(start: Cell, bodies: seq<Body>, end: Cell) {
    && start.version <= end.version
    && (end == start || (start.version < end.version && exists b :: b in bodies && GoodMetadata(b) == Some(end)))
    && forall b :: b in bodies && GoodMetadata(b).Some? ==> GoodMetadata(b).value.version <= end.version
  }

  /** The cell holds the newest of the agent states that can arrive, or what it held at the start. */
  ghost predicate LatestAgentState(r: Replica, bodies: seq<Body>, end: Cell) {
    && r.agentState.version <= end.version
    && (end == r.agentState ||
        (r.agentState.version < end.version
         && exists b :: b in bodies && Eligible(r, bodies, b) && GoodAgentState(b) == Some(end)))
    && forall b :: b in bodies && Eligible(r, bodies, b) ==> GoodAgentState(b).value.version <= end.version
  }

  lemma {:induction false} MetadataIsLatest(r: Replica, bodies: seq<Body>)
    ensures LatestMetadata(r.metadata, bodies, ApplyAll(r, bodies).metadata)
  {
    if bodies != [] {
      var n := |bodies| - 1;
      MetadataIsLatest(r, bodies[..n]);
      assert bodies == bodies[..n] + [bodies[n]];
    }
  }

  /** Every steady agent state has arrived, and whatever the cell holds was eligible. */
  lemma {:induction false} AgentStateBounds(r: Replica, bodies: seq<Body>, all: seq<Body>)
    requires forall b :: b in bodies ==> b in all
    ensures var end := ApplyAll(r, bodies).agentState;
            && r.agentState.version <= end.version
            && (end == r.agentState ||
                (r.agentState.version < end.version
                 && exists b :: b in bodies && Eligible(r, all, b) && GoodAgentState(b) == Some(end)))
            && forall b :: b in bodies && Steady(r, b) ==> GoodAgentState(b).value.version <= end.version
  {
    if bodies != [] {
      var n := |bodies| - 1;
      var last := bodies[n];
      AgentStateBounds(r, bodies[..n], all);
      MetadataIsLatest(r, bodies[..n]);
      assert bodies == bodies[..n] + [last];
      var before := ApplyAll(r, bodies[..n]);
      if !Throws(before.metadata.version, last) && GoodAgentState(last).Some? {
        assert Eligible(r, all, last);
      }
    }
  }

  lemma AgentStateIsLatest(r: Replica, bodies: seq<Body>)
    requires NothingHidden(r, bodies)
    ensures LatestAgentState(r, bodies, ApplyAll(r, bodies).agentState)
  {
    AgentStateBounds(r, bodies, bodies);
    var end := ApplyAll(r, bodies).agentState;
    forall b | b in bodies && Eligible(r, bodies, b)
      ensures GoodAgentState(b).value.version <= end.version
    {
      assert !Hides(r, bodies, b);
    }
  }

  /** With versions that determine their values there is only one latest cell. */
  lemma LatestUnique(r: Replica, bodies: seq<Body>, a: Replica, b: Replica)
    requires Consistent(bodies)
    requires LatestMetadata(r.metadata, bodies, a.metadata) && LatestMetadata(r.metadata, bodies, b.metadata)
    requires LatestAgentState(r, bodies, a.agentState) && LatestAgentState(r, bodies, b.agentState)
    ensures a == b
  {
  }

  /** The replica every order and duplication of these updates ends with. */
  ghost predicate Newest(r: Replica, bodies: seq<Body>, end: Replica) {
    LatestMetadata(r.metadata, bodies, end.metadata) && LatestAgentState(r, bodies, end.agentState)
  }

  lemma SameMembers(r: Replica, bodies: seq<Body>, other: seq<Body>)
    requires SameUpdates(bodies, other)
    ensures NothingHidden(r, bodies) ==> NothingHidden(r, other)
    ensures forall end :: Newest(r, other, end) ==> Newest(r, bodies, end)
  {
    forall version ensures Reached(bodies, version) <==> Reached(other, version) {
    }
    forall b ensures Wavers(r, bodies, b) <==> Wavers(r, other, b) {
    }
    forall b ensures Eligible(r, bodies, b) <==> Eligible(r, other, b) {
    }
    forall b ensures Hides(r, bodies, b) <==> Hides(r, other, b) {
    }
  }

  /** Reordering and duplicating updates changes nothing when no agent state can be hidden. */
  lemma Convergence(r: Replica, bodies: seq<Body>, other: seq<Body>)
    requires Consistent(bodies) && NothingHidden(r, bodies) && SameUpdates(bodies, other)
    ensures Newest(r, bodies, ApplyAll(r, bodies))
    ensures ApplyAll(r, other) == ApplyAll(r, bodies)
  {
    MetadataIsLatest(r, bodies);
    AgentStateIsLatest(r, bodies);
    SameMembers(r, bodies, other);
    MetadataIsLatest(r, other);
    AgentStateIsLatest(r, other);
    LatestUnique(r, bodies, ApplyAll(r, bodies), ApplyAll(r, other));
  }

  // ---------- Exactly when the order does not matter ----------

  lemma {:induction false} ApplyAllConcat(r: Replica, a: seq<Body>, b: seq<Body>)
    ensures ApplyAll(r, a + b) == ApplyAll(ApplyAll(r, a), b)
  {
    if b == [] {
      assert a + b == a;
    } else {
      var n := |b| - 1;
      assert (a + b)[..|a + b| - 1] == a + b[..n];
      ApplyAllConcat(r, a, b[..n]);
    }
  }

  /** The updates that throw on this replica, or those that do not, in order. */
  ghost function Throwing(r: Replica, bodies: seq<Body>, throwing: bool): (some: seq<Body>)
    ensures forall b :: b in some <==> b in bodies && Throws(r.metadata.version, b) == throwing
  {
    if bodies == [] then []
    else
      var n := |bodies| - 1;
      var rest := Throwing(r, bodies[..n], throwing);
      assert bodies == bodies[..n] + [bodies[n]];
      if Throws(r.metadata.version, bodies[n]) == throwing then rest + [bodies[n]] else rest
  }

  lemma {:induction false} AllThrow(r: Replica, bodies: seq<Body>)
    requires forall b :: b in bodies ==> Throws(r.metadata.version, b)
    ensures ApplyAll(r, bodies) == r
  {
    if bodies != [] {
      AllThrow(r, bodies[..|bodies| - 1]);
    }
  }

  /** When the malformed updates come first, only the steady agent states arrive. */
  lemma ThrowingFirst(r: Replica, bodies: seq<Body>, bound: int)
    requires r.agentState.version < bound
    requires forall s :: s in bodies && Steady(r, s) ==> GoodAgentState(s).value.version < bound
    ensures ApplyAll(r, Throwing(r, bodies, true) + Throwing(r, bodies, false)).agentState.version < bound
  {
    var first, second := Throwing(r, bodies, true), Throwing(r, bodies, false);
    ApplyAllConcat(r, first, second);
    AllThrow(r, first);
    AgentStateBounds(r, second, second);
  }

  /** When every update has been seen once, a second pass delivers a wavering agent state. */
  lemma SecondPass(r: Replica, bodies: seq<Body>, b: Body)
    requires b in bodies && GoodAgentState(b).Some? && GoodMetadata(b).None? && b.metadata.Some?
    requires b.metadata.value.version <= r.metadata.version
    ensures ApplyAll(r, bodies).agentState.version >= GoodAgentState(b).value.version
  {
    AgentStateBounds(r, bodies, bodies);
  }

  /** Two orders of the same updates, one of which delivers the agent state that the other loses. */
  lemma HiddenDiverges(r: Replica, bodies: seq<Body>, b: Body) returns (hidden: seq<Body>, twice: seq<Body>)
    requires b in bodies && Hides(r, bodies, b)
    ensures SameUpdates(bodies, hidden) && SameUpdates(bodies, twice)
    ensures ApplyAll(r, hidden).agentState.version < GoodAgentState(b).value.version
    ensures GoodAgentState(b).value.version <= ApplyAll(r, twice).agentState.version
  {
    hidden := Throwing(r, bodies, true) + Throwing(r, bodies, false);
    ThrowingFirst(r, bodies, GoodAgentState(b).value.version);
    twice := bodies + bodies;
    ApplyAllConcat(r, bodies, bodies);
    MetadataIsLatest(r, bodies);
    SecondPass(ApplyAll(r, bodies), bodies, b);
  }

  /**
   * Exactly which updates may arrive in any order and any number of times: those where no newest agent
   * state travels with malformed metadata whose version decodable metadata in the list has reached.
   */
  lemma ExactConvergence(r: Replica, bodies: seq<Body>)
    requires Consistent(bodies)
    ensures NothingHidden(r, bodies) <==>
            forall other :: SameUpdates(bodies, other) ==> ApplyAll(r, other) == ApplyAll(r, bodies)
  {
    if NothingHidden(r, bodies) {
      forall other | SameUpdates(bodies, other) ensures ApplyAll(r, other) == ApplyAll(r, bodies) {
        Convergence(r, bodies, other);
      }
    } else {
      var b :| b in bodies && Hides(r, bodies, b);
      var hidden, twice := HiddenDiverges(r, bodies, b);
      assert ApplyAll(r, hidden) != ApplyAll(r, bodies) || ApplyAll(r, twice) != ApplyAll(r, bodies);
    }
  }

  /** In particular updates whose metadata all decodes converge, each cell on its newest version. */
  lemma DecodableConverges(r: Replica, bodies: seq<Body>, other: seq<Body>)
    requires Consistent(bodies) && SameUpdates(bodies, other)
    requires forall b :: b in bodies && b.UpdateSession? && b.metadata.Some? ==> b.metadata.value.value.Text?
    ensures ApplyAll(r, other) == ApplyAll(r, bodies)
    ensures var end := ApplyAll(r, bodies);
            && LatestMetadata(r.metadata, bodies, end.metadata)
            && (forall b :: b in bodies && GoodAgentState(b).Some? ==>
                  GoodAgentState(b).value.version <= end.agentState.version)
            && (end.agentState == r.agentState || exists b :: b in bodies && GoodAgentState(b) == Some(end.agentState))
  {
    Convergence(r, bodies, other);
    assert forall b :: b in bodies ==> !Throws(r.metadata.version, b);
    forall b | b in bodies && GoodAgentState(b).Some?
      ensures GoodAgentState(b).value.version <= ApplyAll(r, bodies).agentState.version
    {
      assert Eligible(r, bodies, b);
    }
  }

  /** Neither version ever goes down, and a cell whose version stays keeps its value. */
  lemma {:induction false} VersionsNeverGoDown(r: Replica, bodies: seq<Body>)
    ensures var end := ApplyAll(r, bodies);
            && r.metadata.version <= end.metadata.version
            && (r.metadata.version == end.metadata.version ==> r.metadata == end.metadata)
            && r.agentState.version <= end.agentState.version
            && (r.agentState.version == end.agentState.version ==> r.agentState == end.agentState)
  {
    MetadataIsLatest(r, bodies);
    AgentStateBounds(r, bodies, bodies);
  }
}
