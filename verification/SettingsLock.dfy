/**
 * Concurrent calls of updateSettings, as steps over the lock file, the temporary file and the settings
 * file. Every file operation is one step; `stat` together with the clock comparison is one step, and the
 * `unlink` it may lead to is another.
 */
module SettingsLock {
  import opened Wrappers
  import opened Runs

  const MAX_LOCK_ATTEMPTS := 50
  const STALE_LOCK_TIMEOUT_MS := 10000

  type Settings = map<string, string>

  /** What a file holds: nothing, a write in progress or unparsable text, or stored settings. */
  datatype Content = Missing | Garbled | Stored(settings: Settings)

  datatype Outcome = Updated(settings: Settings) | Threw | LockFailed

  /** Where a holder of the lock is between acquiring and releasing it. */
  datatype Phase =
    | Reading
    | Updating(current: Settings)
    | Writing(updated: Settings)
    | Written(updated: Settings, complete: bool)
    | Releasing(outcome: Outcome)

  /** Where a call is: about to open, about to stat, about to unlink, holding, or finished. */
  datatype Call =
    | Trying(attempts: nat)
    | Waiting(attempts: nat)
    | Unlinking(attempts: nat)
    | Holding(since: int, phase: Phase)
    | Done(outcome: Outcome)

  datatype LockFile = LockFile(mtime: int)

  /** `acquired` lists the calls that got the lock, in that order. */
  datatype State = State(
    now: int,
    lock: Option<LockFile>,
    tmp: Content,
    file: Content,
    calls: seq<Call>,
    acquired: seq<nat>)

  /** The calls' updaters (None for one that throws), how settings are read from the file, and how long
      a holder may keep the lock. */
  datatype Config = Config(
    updaters: seq<Settings -> Option<Settings>>,
    load: Content -> Settings,
    holdLimit: nat)

  datatype Action =
    | Tick(ms: nat)
    | Open(p: nat)
    | OpenError(p: nat)
    | Stat(p: nat)
    | Unlink(p: nat)
    | Read(p: nat)
    | Update(p: nat)
    | BeginWrite(p: nat)
    | EndWrite(p: nat)
    | Rename(p: nat)
    | FileError(p: nat)
    | Release(p: nat)

  /** Calls about to start, on whatever files there are; a lock file may be left over from a crashed process. */
  predicate NotStarted(s: State) {
    s.acquired == [] && forall p :: 0 <= p < |s.calls| ==> s.calls[p] == Trying(0)
  }

  predicate Start(c: Config, s: State) {
    NotStarted(s) && |s.calls| == |c.updaters|
  }

  /** Back to the head of the retry loop. */
  function Retry(attempts: nat): Call {
    if attempts < MAX_LOCK_ATTEMPTS then Trying(attempts) else Done(LockFailed)
  }

  function Set(s: State, p: nat, call: Call): State
    requires p < |s.calls|
  {
    s.(calls := s.calls[p := call])
  }

  /** No holder keeps the lock longer than the limit. */
  predicate Timely(c: Config, s: State) {
    forall p :: 0 <= p < |s.calls| && s.calls[p].Holding? ==> s.now - s.calls[p].since <= c.holdLimit
  }

  /** One step; None when the action is not possible in the state. */
  function Step(c: Config, s: State, a: Action): (r: Option<State>)
    ensures r.Some? ==> |r.value.calls| == |c.updaters|
  {
    if |s.calls| != |c.updaters| then None
    else if a.Tick? then
      var s' := s.(now := s.now + a.ms);
      if Timely(c, s') then Some(s') else None
    else if a.p >= |s.calls| then None
    else if s.calls[a.p].Holding? then HolderStep(c, s, a)
    else ContenderStep(s, a)
  }

  function ContenderStep(s: State, a: Action): Option<State>
    requires !a.Tick? && a.p < |s.calls|
  {
    match (a, s.calls[a.p])
    case (Open(p), Trying(n)) =>
      if s.lock.Some? then Some(Set(s, p, Waiting(n + 1)))
      else Some(Set(s, p, Holding(s.now, Reading)).(lock := Some(LockFile(s.now)), acquired := s.acquired + [p]))
    case (OpenError(p), Trying(_)) => Some(Set(s, p, Done(Threw)))
    case (Stat(p), Waiting(n)) =>
      if s.lock.Some? && s.now - s.lock.value.mtime > STALE_LOCK_TIMEOUT_MS then Some(Set(s, p, Unlinking(n)))
      else Some(Set(s, p, Retry(n)))
    case (Unlink(p), Unlinking(n)) => Some(Set(s, p, Retry(n)).(lock := None))
    case _ => None
  }

  function HolderStep(c: Config, s: State, a: Action): Option<State>
    requires |s.calls| == |c.updaters| && !a.Tick? && a.p < |s.calls| && s.calls[a.p].Holding?
  {
    var since := s.calls[a.p].since;
    match (a, s.calls[a.p].phase)
    case (Read(p), Reading) => Some(Set(s, p, Holding(since, Updating(c.load(s.file)))))
    case (Update(p), Updating(current)) =>
      var next := match c.updaters[p](current) case Some(u) => Writing(u) case None => Releasing(Threw);
      Some(Set(s, p, Holding(since, next)))
    case (BeginWrite(p), Writing(u)) => Some(Set(s, p, Holding(since, Written(u, false))).(tmp := Garbled))
    case (EndWrite(p), Written(u, false)) => Some(Set(s, p, Holding(since, Written(u, true))).(tmp := Stored(u)))
    case (Rename(p), Written(u, true)) =>
      Some(Set(s, p, Holding(since, Releasing(Updated(u)))).(file := s.tmp, tmp := Missing))
    case (FileError(p), Releasing(_)) => None
    case (FileError(p), _) => Some(Set(s, p, Holding(since, Releasing(Threw))))
    case (Release(p), Releasing(o)) => Some(Set(s, p, Done(o)).(lock := None))
    case _ => None
  }

  function Steps(c: Config): (State, Action) -> Option<State> {
    (s, a) => Step(c, s, a)
  }

  // ---------- What a run should have done ----------

  /** The calls whose update reached the settings file. */
  predicate Committed(call: Call) {
    match call
    case Holding(_, Releasing(Updated(_))) => true
    case Done(Updated(_)) => true
    case _ => false
  }

  function Result(call: Call): Settings
    requires Committed(call)
  {
    if call.Done? then call.outcome.settings else call.phase.outcome.settings
  }

  /**
   * The settings file after applying, one after another in order of acquisition, the updaters of the
   * calls that committed.
   */
  function Serial(c: Config, f: Content, calls: seq<Call>, acquired: seq<nat>): Content
    requires |calls| == |c.updaters|
  {
    if acquired == [] then f
    else
      var before := Serial(c, f, calls, acquired[..|acquired| - 1]);
      var p := acquired[|acquired| - 1];
      if p < |calls| && Committed(calls[p]) then
        match c.updaters[p](c.load(before))
        case Some(u) => Stored(u)
        case None => before
      else before
  }

  /** At most one call is between acquiring and releasing the lock. */
  ghost predicate MutualExclusion(s: State) {
    forall p, q :: 0 <= p < |s.calls| && 0 <= q < |s.calls| && s.calls[p].Holding? && s.calls[q].Holding? ==> p == q
  }

  /** No call has found the lock stale. */
  ghost predicate NeverStolen(s: State) {
    forall p :: 0 <= p < |s.calls| ==> !s.calls[p].Unlinking?
  }

  // ---------- The invariant ----------

  /** The lock file is there exactly while some call holds, and carries the time that call acquired it. */
  ghost predicate LockInv(s: State) {
    && MutualExclusion(s)
    && (s.lock.None? <==> forall p :: 0 <= p < |s.calls| ==> !s.calls[p].Holding?)
    && (forall p :: 0 <= p < |s.calls| && s.calls[p].Holding? ==> s.lock == Some(LockFile(s.calls[p].since)))
  }

  /** What a holder in each phase knows about the files. */
  predicate PhaseInv(c: Config, s: State, p: nat)
    requires p < |s.calls| == |c.updaters|
  {
    s.calls[p].Holding? ==>
      match s.calls[p].phase
      case Reading => true
      case Updating(current) => current == c.load(s.file)
      case Writing(u) => c.updaters[p](c.load(s.file)) == Some(u)
      case Written(u, complete) => c.updaters[p](c.load(s.file)) == Some(u) && (complete ==> s.tmp == Stored(u))
      case Releasing(_) => true
  }

  /** A call is in the acquisition order once, from the time it gets the lock. */
  ghost predicate OrderInv(s: State) {
    && (forall i :: 0 <= i < |s.acquired| ==> s.acquired[i] < |s.calls|)
    && (forall i, j :: 0 <= i < j < |s.acquired| ==> s.acquired[i] != s.acquired[j])
    && (forall i :: 0 <= i < |s.acquired| ==> var call := s.calls[s.acquired[i]]; call.Done? || call.Holding?)
    && (forall p :: 0 <= p < |s.calls| && s.calls[p].Holding? ==> s.acquired != [] && s.acquired[|s.acquired| - 1] == p)
    && (forall p :: 0 <= p < |s.calls| && Committed(s.calls[p]) ==> p in s.acquired)
  }

  /** The file is the serial result, and each committed call returns what it stored. */
  ghost predicate FileInv(c: Config, f: Content, s: State)
    requires |s.calls| == |c.updaters|
  {
    && s.file == Serial(c, f, s.calls, s.acquired)
    && forall i :: 0 <= i < |s.acquired| && s.acquired[i] < |s.calls| && Committed(s.calls[s.acquired[i]]) ==>
         Serial(c, f, s.calls, s.acquired[..i + 1]) == Stored(Result(s.calls[s.acquired[i]]))
  }

  /** What mutual exclusion alone is enough to keep: the order of acquisition and the settings file. */
  ghost predicate Core(c: Config, f: Content, s: State) {
    && |s.calls| == |c.updaters|
    && MutualExclusion(s) && OrderInv(s)
    && (forall p :: 0 <= p < |s.calls| ==> PhaseInv(c, s, p))
    && FileInv(c, f, s)
  }

  /** What keeps the calls apart: the lock file belongs to the holder, and no holder is late. */
  ghost predicate Guarded(c: Config, s: State) {
    |s.calls| == |c.updaters| && Timely(c, s) && LockInv(s) && NeverStolen(s)
  }

  lemma StartCore(c: Config, s: State)
    requires Start(c, s)
    ensures Core(c, s.file, s)
    ensures s.lock.None? ==> Guarded(c, s)
  {
  }

  /** The serial result depends only on which of the listed calls committed. */
  lemma {:induction false} SerialSame(c: Config, f: Content, calls: seq<Call>, calls': seq<Call>, acquired: seq<nat>)
    requires |calls| == |calls'| == |c.updaters|
    requires forall i :: 0 <= i < |acquired| ==>
               acquired[i] < |calls| && (Committed(calls[acquired[i]]) <==> Committed(calls'[acquired[i]]))
    ensures Serial(c, f, calls, acquired) == Serial(c, f, calls', acquired)
  {
    if acquired != [] {
      SerialSame(c, f, calls, calls', acquired[..|acquired| - 1]);
    }
  }

  /** A step that commits nothing and leaves the file alone keeps the file's invariant. */
  lemma FileKept(c: Config, f: Content, s: State, p: nat, call: Call)
    requires Core(c, f, s) && p < |s.calls|
    requires Committed(call) <==> Committed(s.calls[p])
    requires Committed(call) ==> Result(call) == Result(s.calls[p])
    ensures FileInv(c, f, Set(s, p, call))
  {
    var s' := Set(s, p, call);
    SerialSame(c, f, s.calls, s'.calls, s.acquired);
    forall i | 0 <= i < |s.acquired| && Committed(s'.calls[s.acquired[i]])
      ensures Serial(c, f, s'.calls, s.acquired[..i + 1]) == Stored(Result(s'.calls[s.acquired[i]]))
    {
      SerialSame(c, f, s.calls, s'.calls, s.acquired[..i + 1]);
    }
  }

  // ---------- Mutual exclusion keeps the file serial ----------

  /** The clock and the lock file play no part in it. */
  lemma CoreSame(c: Config, f: Content, s: State, s': State)
    requires Core(c, f, s)
    requires s'.calls == s.calls && s'.acquired == s.acquired && s'.file == s.file && s'.tmp == s.tmp
    ensures Core(c, f, s')
  {
    forall p | 0 <= p < |s.calls| ensures PhaseInv(c, s', p) {
      assert PhaseInv(c, s, p);
    }
  }

  /** A call that does not hold the lock moves without getting it. */
  lemma ContenderKeeps(c: Config, f: Content, s: State, p: nat, call: Call)
    requires Core(c, f, s) && p < |s.calls|
    requires !s.calls[p].Holding? && !s.calls[p].Done?
    requires !call.Holding? && !Committed(call)
    ensures Core(c, f, Set(s, p, call))
  {
    var s' := Set(s, p, call);
    FileKept(c, f, s, p, call);
    forall q | 0 <= q < |s'.calls| ensures PhaseInv(c, s', q) {
      assert PhaseInv(c, s, q);
    }
  }

  /** A holder moves on without touching the settings file. */
  lemma HolderKeeps(c: Config, f: Content, s: State, p: nat, phase: Phase, tmp: Content)
    requires Core(c, f, s) && p < |s.calls| && s.calls[p].Holding? && !Committed(s.calls[p])
    requires var call := Holding(s.calls[p].since, phase);
             !Committed(call) && PhaseInv(c, Set(s, p, call).(tmp := tmp), p)
    ensures Core(c, f, Set(s, p, Holding(s.calls[p].since, phase)).(tmp := tmp))
  {
    var call := Holding(s.calls[p].since, phase);
    var s' := Set(s, p, call).(tmp := tmp);
    FileKept(c, f, s, p, call);
    forall q | 0 <= q < |s'.calls| ensures PhaseInv(c, s', q) {
      assert q != p ==> !s.calls[q].Holding?;
    }
  }

  /** A call gets the lock while no other holds it. */
  lemma OpenKeeps(c: Config, f: Content, s: State, p: nat)
    requires Core(c, f, s) && p < |s.calls| && s.calls[p].Trying?
    requires forall q :: 0 <= q < |s.calls| ==> !s.calls[q].Holding?
    ensures Core(c, f, Set(s, p, Holding(s.now, Reading)).(acquired := s.acquired + [p]))
  {
    var call := Holding(s.now, Reading);
    var s' := Set(s, p, call).(acquired := s.acquired + [p]);
    FileKept(c, f, s, p, call);
    OpenFile(c, f, Set(s, p, call), p);
    assert p !in s.acquired;
    forall q | 0 <= q < |s'.calls| ensures PhaseInv(c, s', q) {
    }
  }

  /** A new holder at the end of the order has changed nothing yet. */
  lemma OpenFile(c: Config, f: Content, s: State, p: nat)
    requires p < |s.calls| == |c.updaters| && !Committed(s.calls[p]) && FileInv(c, f, s)
    ensures FileInv(c, f, s.(acquired := s.acquired + [p]))
  {
    var n := |s.acquired|;
    var acquired := s.acquired + [p];
    assert acquired[..n] == s.acquired;
    forall i | 0 <= i < n + 1 && acquired[i] < |s.calls| && Committed(s.calls[acquired[i]])
      ensures Serial(c, f, s.calls, acquired[..i + 1]) == Stored(Result(s.calls[acquired[i]]))
    {
      assert i < n;
      assert acquired[..i + 1] == s.acquired[..i + 1];
    }
  }

  /** The rename puts the next serial result into the settings file. */
  lemma RenameKeeps(c: Config, f: Content, s: State, p: nat, u: Settings)
    requires Core(c, f, s) && p < |s.calls|
    requires s.calls[p].Holding? && s.calls[p].phase == Written(u, true)
    ensures Core(c, f, Set(s, p, Holding(s.calls[p].since, Releasing(Updated(u)))).(file := s.tmp, tmp := Missing))
  {
    var call := Holding(s.calls[p].since, Releasing(Updated(u)));
    var s' := Set(s, p, call).(file := s.tmp, tmp := Missing);
    assert PhaseInv(c, s, p);
    var n := |s.acquired| - 1;
    assert s.acquired == s.acquired[..n] + [p];
    CommitFile(c, f, s, p, call, u, s.acquired[..n]);
    forall q | 0 <= q < |s'.calls| ensures PhaseInv(c, s', q) {
      assert q != p ==> !s.calls[q].Holding?;
    }
  }

  /** One more call in the order. */
  lemma SerialSnoc(c: Config, f: Content, calls: seq<Call>, earlier: seq<nat>, p: nat)
    requires p < |calls| == |c.updaters|
    ensures var before := Serial(c, f, calls, earlier);
            Serial(c, f, calls, earlier + [p]) ==
            if Committed(calls[p]) && c.updaters[p](c.load(before)).Some? then
              Stored(c.updaters[p](c.load(before)).value)
            else before
  {
    assert (earlier + [p])[..|earlier|] == earlier;
  }

  /** The calls before the last one return what they stored, whatever becomes of the last one. */
  lemma EarlierResults(c: Config, f: Content, s: State, p: nat, call: Call, earlier: seq<nat>, i: nat)
    requires p < |s.calls| == |c.updaters| && FileInv(c, f, s) && s.acquired == earlier + [p] && p !in earlier
    requires forall j :: 0 <= j < |earlier| ==> earlier[j] < |s.calls|
    requires i < |earlier| && Committed(s.calls[earlier[i]])
    ensures Serial(c, f, s.calls[p := call], earlier[..i + 1]) == Stored(Result(s.calls[earlier[i]]))
  {
    assert s.acquired[..i + 1] == earlier[..i + 1] && s.acquired[i] == earlier[i];
    SerialSame(c, f, s.calls, s.calls[p := call], earlier[..i + 1]);
  }

  /** When the last call to acquire commits, the serial result is what its updater makes of the file. */
  lemma CommitFile(c: Config, f: Content, s: State, p: nat, call: Call, u: Settings, earlier: seq<nat>)
    requires p < |s.calls| == |c.updaters| && FileInv(c, f, s) && s.acquired == earlier + [p] && p !in earlier
    requires forall i :: 0 <= i < |earlier| ==> earlier[i] < |s.calls|
    requires !Committed(s.calls[p]) && Committed(call) && Result(call) == u
    requires c.updaters[p](c.load(s.file)) == Some(u)
    ensures FileInv(c, f, Set(s, p, call).(file := Stored(u), tmp := Missing))
  {
    var calls', acquired := s.calls[p := call], s.acquired;
    SerialSnoc(c, f, s.calls, earlier, p);
    SerialSame(c, f, s.calls, calls', earlier);
    SerialSnoc(c, f, calls', earlier, p);
    forall i | 0 <= i < |acquired| && acquired[i] < |calls'| && Committed(calls'[acquired[i]])
      ensures Serial(c, f, calls', acquired[..i + 1]) == Stored(Result(calls'[acquired[i]]))
    {
      if i < |earlier| {
        EarlierResults(c, f, s, p, call, earlier, i);
        assert acquired[..i + 1] == earlier[..i + 1];
      } else {
        assert acquired[..i + 1] == acquired;
      }
    }
  }

  lemma ReleaseKeeps(c: Config, f: Content, s: State, p: nat, o: Outcome)
    requires Core(c, f, s) && p < |s.calls|
    requires s.calls[p].Holding? && s.calls[p].phase == Releasing(o)
    ensures Core(c, f, Set(s, p, Done(o)))
  {
    var s' := Set(s, p, Done(o));
    FileKept(c, f, s, p, Done(o));
    forall q | 0 <= q < |s'.calls| ensures PhaseInv(c, s', q) {
      assert q != p ==> !s.calls[q].Holding?;
    }
  }

  lemma OpenStepKeeps(c: Config, f: Content, s: State, p: nat, lock: Option<LockFile>)
    requires Core(c, f, s) && p < |s.calls| && s.calls[p].Trying?
    requires MutualExclusion(Set(s, p, Holding(s.now, Reading)))
    ensures Core(c, f, Set(s, p, Holding(s.now, Reading)).(lock := lock, acquired := s.acquired + [p]))
  {
    var s' := Set(s, p, Holding(s.now, Reading)).(acquired := s.acquired + [p]);
    assert s'.calls[p].Holding?;
    forall q | 0 <= q < |s.calls| ensures !s.calls[q].Holding? {
      assert q != p ==> s'.calls[q] == s.calls[q];
    }
    OpenKeeps(c, f, s, p);
    CoreSame(c, f, s', s'.(lock := lock));
  }

  lemma ContenderStepKeeps(c: Config, f: Content, s: State, a: Action)
    requires Core(c, f, s)
    requires !a.Tick? && a.p < |s.calls| && ContenderStep(s, a).Some? && MutualExclusion(ContenderStep(s, a).value)
    ensures Core(c, f, ContenderStep(s, a).value)
  {
    var s' := ContenderStep(s, a).value;
    match (a, s.calls[a.p])
    case (Open(p), Trying(n)) =>
      if s.lock.Some? {
        ContenderKeeps(c, f, s, p, Waiting(n + 1));
      } else {
        OpenStepKeeps(c, f, s, p, s'.lock);
      }
    case (OpenError(p), Trying(n)) =>
      ContenderKeeps(c, f, s, p, Done(Threw));
    case (Stat(p), Waiting(n)) =>
      ContenderKeeps(c, f, s, p, s'.calls[p]);
    case (Unlink(p), Unlinking(n)) =>
      ContenderKeeps(c, f, s, p, Retry(n));
      CoreSame(c, f, Set(s, p, Retry(n)), s');
    case _ =>
  }

  lemma HolderStepKeeps(c: Config, f: Content, s: State, a: Action)
    requires Core(c, f, s)
    requires !a.Tick? && a.p < |s.calls| && s.calls[a.p].Holding? && HolderStep(c, s, a).Some?
    ensures Core(c, f, HolderStep(c, s, a).value)
  {
    assert PhaseInv(c, s, a.p);
    var since := s.calls[a.p].since;
    match (a, s.calls[a.p].phase)
    case (Read(p), Reading) =>
      HolderKeeps(c, f, s, p, Updating(c.load(s.file)), s.tmp);
    case (Update(p), Updating(current)) =>
      var next := match c.updaters[p](current) case Some(u) => Writing(u) case None => Releasing(Threw);
      HolderKeeps(c, f, s, p, next, s.tmp);
    case (BeginWrite(p), Writing(u)) =>
      HolderKeeps(c, f, s, p, Written(u, false), Garbled);
    case (EndWrite(p), Written(u, false)) =>
      HolderKeeps(c, f, s, p, Written(u, true), Stored(u));
    case (Rename(p), Written(u, true)) =>
      RenameKeeps(c, f, s, p, u);
    case (FileError(p), Releasing(_)) =>
    case (FileError(p), _) =>
      HolderKeeps(c, f, s, p, Releasing(Threw), s.tmp);
    case (Release(p), Releasing(o)) =>
      ReleaseKeeps(c, f, s, p, o);
      CoreSame(c, f, Set(s, p, Done(o)), HolderStep(c, s, a).value);
    case _ =>
  }

  /** A step into a state with one holder at most keeps the settings file serial. */
  lemma StepKeeps(c: Config, f: Content, s: State, a: Action)
    requires Core(c, f, s) && Step(c, s, a).Some? && MutualExclusion(Step(c, s, a).value)
    ensures Core(c, f, Step(c, s, a).value)
  {
    if a.Tick? {
      CoreSame(c, f, s, Step(c, s, a).value);
    } else if s.calls[a.p].Holding? {
      HolderStepKeeps(c, f, s, a);
    } else {
      ContenderStepKeeps(c, f, s, a);
    }
  }

  // ---------- What keeps mutual exclusion ----------

  /** While the lock file is there, its holder is within the limit, so it is not stale. */
  lemma LockFresh(c: Config, s: State)
    requires Guarded(c, s) && s.lock.Some? && c.holdLimit <= STALE_LOCK_TIMEOUT_MS
    ensures s.now - s.lock.value.mtime <= STALE_LOCK_TIMEOUT_MS
  {
    var p :| 0 <= p < |s.calls| && s.calls[p].Holding?;
  }

  lemma StepGuards(c: Config, s: State, a: Action)
    requires Guarded(c, s) && c.holdLimit <= STALE_LOCK_TIMEOUT_MS && Step(c, s, a).Some?
    ensures Guarded(c, Step(c, s, a).value)
  {
    if a.Tick? {
    } else if s.calls[a.p].Holding? {
      HolderGuards(c, s, a);
    } else {
      if a.Stat? && s.lock.Some? {
        LockFresh(c, s);
      }
      ContenderGuards(c, s, a);
    }
  }

  lemma HolderGuards(c: Config, s: State, a: Action)
    requires Guarded(c, s)
    requires !a.Tick? && a.p < |s.calls| && s.calls[a.p].Holding? && HolderStep(c, s, a).Some?
    ensures Guarded(c, HolderStep(c, s, a).value)
  {
    var s' := HolderStep(c, s, a).value;
    assert forall q :: 0 <= q < |s.calls| && q != a.p ==> s'.calls[q] == s.calls[q] && !s.calls[q].Holding?;
    assert a.Release? || s'.calls[a.p].Holding?;
  }

  lemma ContenderGuards(c: Config, s: State, a: Action)
    requires Guarded(c, s)
    requires !a.Tick? && a.p < |s.calls| && !s.calls[a.p].Holding? && ContenderStep(s, a).Some?
    requires a.Stat? && s.lock.Some? ==> s.now - s.lock.value.mtime <= STALE_LOCK_TIMEOUT_MS
    ensures Guarded(c, ContenderStep(s, a).value)
  {
    var s' := ContenderStep(s, a).value;
    assert forall q :: 0 <= q < |s.calls| && q != a.p ==> s'.calls[q] == s.calls[q];
    if s.lock.Some? {
      var q :| 0 <= q < |s.calls| && s.calls[q].Holding?;
      assert s'.calls[q].Holding?;
    } else {
      assert s'.lock.Some? ==> s'.calls[a.p].Holding?;
    }
  }

  // ---------- Main results ----------

  /** A call alone, or timely holders on a directory without a lock file. */
  predicate Excludes(limit: nat, calls: nat, locked: bool) {
    calls <= 1 || (limit <= STALE_LOCK_TIMEOUT_MS && !locked)
  }

  lemma {:induction false} RunGuards(c: Config, s: State, actions: seq<Action>)
    requires Start(c, s) && s.lock.None? && c.holdLimit <= STALE_LOCK_TIMEOUT_MS && Run(Steps(c), s, actions).Some?
    ensures Guarded(c, Run(Steps(c), s, actions).value)
  {
    if actions == [] {
      StartCore(c, s);
    } else {
      RunGuards(c, s, actions[..|actions| - 1]);
      StepGuards(c, Run(Steps(c), s, actions[..|actions| - 1]).value, actions[|actions| - 1]);
    }
  }

  lemma {:induction false} RunSize(c: Config, s: State, actions: seq<Action>)
    requires Start(c, s) && Run(Steps(c), s, actions).Some?
    ensures |Run(Steps(c), s, actions).value.calls| == |s.calls| == |c.updaters|
  {
  }

  lemma RunExcludes(c: Config, s: State, actions: seq<Action>)
    requires Start(c, s) && Excludes(c.holdLimit, |s.calls|, s.lock.Some?) && Run(Steps(c), s, actions).Some?
    ensures MutualExclusion(Run(Steps(c), s, actions).value)
  {
    RunSize(c, s, actions);
    if |s.calls| > 1 {
      RunGuards(c, s, actions);
    }
  }

  lemma {:induction false} RunKeeps(c: Config, s: State, actions: seq<Action>)
    requires Start(c, s) && Excludes(c.holdLimit, |s.calls|, s.lock.Some?) && Run(Steps(c), s, actions).Some?
    ensures Core(c, s.file, Run(Steps(c), s, actions).value)
  {
    if actions == [] {
      StartCore(c, s);
    } else {
      RunKeeps(c, s, actions[..|actions| - 1]);
      RunExcludes(c, s, actions);
      StepKeeps(c, s.file, Run(Steps(c), s, actions[..|actions| - 1]).value, actions[|actions| - 1]);
    }
  }

  /** What the lock is for, in the state a run has reached from a file `f`. */
  ghost predicate Safe(c: Config, f: Content, s: State)
    requires |s.calls| == |c.updaters|
  {
    MutualExclusion(s) && s.file == Serial(c, f, s.calls, s.acquired)
  }

  /**
   * In every interleaving of any number of calls whose holders finish within the stale limit, started
   * without a lock file, and in every run of one call: at most one call holds the lock, and the settings
   * file is the result of applying the committed calls' updaters one after another in order of
   * acquisition; each of them returns what it stored. Without a lock file to start with, none is stolen.
   */
  lemma TimelyRunsAreSafe(c: Config, s: State, actions: seq<Action>)
    requires Start(c, s) && Excludes(c.holdLimit, |s.calls|, s.lock.Some?) && Run(Steps(c), s, actions).Some?
    ensures var s' := Run(Steps(c), s, actions).value;
            && Safe(c, s.file, s')
            && (s.lock.None? && c.holdLimit <= STALE_LOCK_TIMEOUT_MS ==> NeverStolen(s'))
            && forall p :: 0 <= p < |s'.calls| && Committed(s'.calls[p]) ==>
                 exists i :: 0 <= i < |s'.acquired| && s'.acquired[i] == p
                   && Serial(c, s.file, s'.calls, s'.acquired[..i + 1]) == Stored(Result(s'.calls[p]))
  {
    RunKeeps(c, s, actions);
    if s.lock.None? && c.holdLimit <= STALE_LOCK_TIMEOUT_MS {
      RunGuards(c, s, actions);
    }
    var s' := Run(Steps(c), s, actions).value;
    forall p | 0 <= p < |s'.calls| && Committed(s'.calls[p])
      ensures exists i :: 0 <= i < |s'.acquired| && s'.acquired[i] == p
                && Serial(c, s.file, s'.calls, s'.acquired[..i + 1]) == Stored(Result(s'.calls[p]))
    {
      var i :| 0 <= i < |s'.acquired| && s'.acquired[i] == p;
      assert Committed(s'.calls[s'.acquired[i]]);
    }
  }

  lemma CommittedStays(c: Config, s: State, a: Action, p: nat)
    requires Step(c, s, a).Some? && p < |s.calls| && Committed(s.calls[p])
    ensures Committed(Step(c, s, a).value.calls[p])
  {
  }

  lemma OnlyCommittingWrites(c: Config, s: State, a: Action)
    requires Step(c, s, a).Some? && !a.Tick?
    ensures a.p < |s.calls|
    ensures !Committed(Step(c, s, a).value.calls[a.p]) ==> Step(c, s, a).value.file == s.file
  {
  }

  /**
   * In any run, however long holders take: a call that failed to acquire the lock, or whose updater or
   * file operation threw, or that is not yet past its rename, has changed the settings file by no step.
   */
  lemma {:induction false} FailedCallsNeverWrite(c: Config, s: State, actions: seq<Action>, k: nat, p: nat)
    requires Run(Steps(c), s, actions).Some? && k < |actions| && !actions[k].Tick? && actions[k].p == p
    requires var s' := Run(Steps(c), s, actions).value; p < |s'.calls| ==> !Committed(s'.calls[p])
    ensures var before, after := Run(Steps(c), s, actions[..k]), Run(Steps(c), s, actions[..k + 1]);
            before.Some? && after.Some? && after.value.file == before.value.file
  {
    var n := |actions| - 1;
    var last := Run(Steps(c), s, actions[..n]).value;
    if k == n {
      assert actions[..k + 1] == actions;
      OnlyCommittingWrites(c, last, actions[n]);
    } else {
      if p < |last.calls| && Committed(last.calls[p]) {
        CommittedStays(c, last, actions[n], p);
      }
      FailedCallsNeverWrite(c, s, actions[..n], k, p);
      assert actions[..n][..k] == actions[..k] && actions[..n][..k + 1] == actions[..k + 1];
    }
  }

  // ---------- How a call ends ----------

  /** How often call `p` has tried to open and found a lock file. */
  ghost function FoundLocked(c: Config, s: State, actions: seq<Action>, p: nat): (n: nat)
    requires Run(Steps(c), s, actions).Some?
  {
    if actions == [] then 0
    else
      var n := |actions| - 1;
      var before := Run(Steps(c), s, actions[..n]).value;
      FoundLocked(c, s, actions[..n], p) + if actions[n] == Open(p) && before.lock.Some? then 1 else 0
  }

  /** How often it has looked at the lock afterwards: it found none or a fresh one, or unlinked a stale one. */
  ghost function Looked(c: Config, s: State, actions: seq<Action>, p: nat): (n: nat)
    requires Run(Steps(c), s, actions).Some?
  {
    if actions == [] then 0
    else
      var n := |actions| - 1;
      var before := Run(Steps(c), s, actions[..n]).value;
      Looked(c, s, actions[..n], p) +
      if || actions[n] == Unlink(p)
         || (actions[n] == Stat(p) && !(before.lock.Some? && before.now - before.lock.value.mtime > 10000))
      then 1 else 0
  }

  /** What its position says of a call: how often it has found the lock taken, and how often it has looked. */
  predicate Counted(call: Call, found: nat, looked: nat) {
    match call
    case Trying(n) => found == looked == n < 50
    case Waiting(n) => found == looked + 1 == n <= 50
    case Unlinking(n) => found == looked + 1 == n <= 50
    case Holding(_, phase) => found == looked < 50 && (phase.Releasing? ==> phase.outcome != LockFailed)
    case Done(outcome) => found == looked && (outcome == LockFailed <==> found == 50) && found <= 50
  }

  lemma CountedStep(c: Config, s: State, a: Action, p: nat, found: nat, looked: nat)
    requires Step(c, s, a).Some? && p < |s.calls| && Counted(s.calls[p], found, looked)
    ensures var found' := found + if a == Open(p) && s.lock.Some? then 1 else 0;
            var looked' := looked + if || a == Unlink(p)
                                       || (a == Stat(p) && !(s.lock.Some? && s.now - s.lock.value.mtime > 10000))
                                    then 1 else 0;
            Counted(Step(c, s, a).value.calls[p], found', looked')
  {
    if a.Tick? || a.p != p {
    } else if s.calls[p].Holding? {
    } else {
    }
  }

  lemma {:induction false} RunCounts(c: Config, s: State, actions: seq<Action>, p: nat)
    requires Start(c, s) && Run(Steps(c), s, actions).Some? && p < |s.calls|
    ensures p < |Run(Steps(c), s, actions).value.calls|
    ensures Counted(Run(Steps(c), s, actions).value.calls[p],
                    FoundLocked(c, s, actions, p), Looked(c, s, actions, p))
  {
    if actions != [] {
      var n := |actions| - 1;
      RunCounts(c, s, actions[..n], p);
      RunSize(c, s, actions[..n]);
      CountedStep(c, Run(Steps(c), s, actions[..n]).value, actions[n], p,
                  FoundLocked(c, s, actions[..n], p), Looked(c, s, actions[..n], p));
    }
  }

  /**
   * A call fails to acquire the lock exactly when it has found the lock taken 50 times and has looked at
   * it after the last one.
   */
  lemma FailsAfterFiftyLooks(c: Config, s: State, actions: seq<Action>, p: nat)
    requires Start(c, s) && Run(Steps(c), s, actions).Some? && p < |s.calls|
    ensures p < |Run(Steps(c), s, actions).value.calls|
    ensures Run(Steps(c), s, actions).value.calls[p] == Done(LockFailed) <==>
            FoundLocked(c, s, actions, p) == 50 && Looked(c, s, actions, p) == 50
    ensures Looked(c, s, actions, p) <= FoundLocked(c, s, actions, p) <= 50
  {
    RunCounts(c, s, actions, p);
  }

  /** Before that, a call that has just looked at a lock, fresh or gone, or has unlinked a stale one, can open again. */
  lemma OpensAgain(c: Config, s: State, actions: seq<Action>, p: nat)
    requires Start(c, s) && Run(Steps(c), s, actions).Some? && p < |s.calls|
    requires actions != []
    requires var before, a := Run(Steps(c), s, actions[..|actions| - 1]).value, actions[|actions| - 1];
             || a == Unlink(p)
             || (a == Stat(p) && !(before.lock.Some? && before.now - before.lock.value.mtime > 10000))
    requires FoundLocked(c, s, actions, p) < 50
    ensures Step(c, Run(Steps(c), s, actions).value, Open(p)).Some?
  {
    RunCounts(c, s, actions, p);
    var n := |actions| - 1;
    RunCounts(c, s, actions[..n], p);
    RunSize(c, s, actions);
  }

  /** And a call that has found a stale lock can unlink it: then the lock is gone. */
  lemma UnlinksStale(c: Config, s: State, p: nat, n: nat)
    requires p < |s.calls| == |c.updaters| && s.calls[p] == Waiting(n)
    requires s.lock.Some? && s.now - s.lock.value.mtime > 10000
    ensures Run(Steps(c), s, [Stat(p), Unlink(p)]).Some?
    ensures Run(Steps(c), s, [Stat(p), Unlink(p)]).value.lock == None
  {
    var s1 := Step(c, s, Stat(p)).value;
    var s2 := Step(c, s1, Unlink(p)).value;
    RunStates(Steps(c), [s, s1, s2], [Stat(p), Unlink(p)]);
  }

  /** A call throws exactly when its open failed for another reason, its updater threw or a file operation failed. */
  predicate Broke(c: Config, before: State, a: Action, p: nat) {
    || a == OpenError(p)
    || a == FileError(p)
    || (a == Update(p) && p < |before.calls| == |c.updaters| && before.calls[p].Holding?
        && before.calls[p].phase.Updating? && c.updaters[p](before.calls[p].phase.current).None?)
  }

  ghost predicate HasBroken(c: Config, s: State, actions: seq<Action>, p: nat)
    requires Run(Steps(c), s, actions).Some?
  {
    actions != [] &&
    (HasBroken(c, s, actions[..|actions| - 1], p)
     || Broke(c, Run(Steps(c), s, actions[..|actions| - 1]).value, actions[|actions| - 1], p))
  }

  predicate Thrown(call: Call) {
    call == Done(Threw) || (call.Holding? && call.phase == Releasing(Threw))
  }

  lemma BrokeStep(c: Config, s: State, a: Action, p: nat)
    requires Step(c, s, a).Some? && p < |s.calls|
    ensures Thrown(Step(c, s, a).value.calls[p]) <==> Thrown(s.calls[p]) || Broke(c, s, a, p)
  {
    if a.Tick? || a.p != p {
    } else if s.calls[p].Holding? {
    } else {
    }
  }

  lemma {:induction false} ThrowsWhenBroken(c: Config, s: State, actions: seq<Action>, p: nat)
    requires Start(c, s) && Run(Steps(c), s, actions).Some? && p < |s.calls|
    ensures p < |Run(Steps(c), s, actions).value.calls|
    ensures Thrown(Run(Steps(c), s, actions).value.calls[p]) <==> HasBroken(c, s, actions, p)
  {
    if actions != [] {
      var n := |actions| - 1;
      ThrowsWhenBroken(c, s, actions[..n], p);
      RunSize(c, s, actions[..n]);
      BrokeStep(c, Run(Steps(c), s, actions[..n]).value, actions[n], p);
    }
  }

  // ---------- What a holder does with the lock ----------

  /** A lone holder stores what its updater makes of the settings it reads, and returns it. */
  lemma HolderStores(c: Config, s: State, p: nat, u: Settings)
    requires p < |s.calls| == |c.updaters| && s.calls[p].Holding? && s.calls[p].phase == Reading
    requires c.updaters[p](c.load(s.file)) == Some(u)
    ensures Run(Steps(c), s, [Read(p), Update(p), BeginWrite(p), EndWrite(p), Rename(p), Release(p)]) ==
            Some(s.(calls := s.calls[p := Done(Updated(u))], lock := None, file := Stored(u), tmp := Missing))
  {
    var mid := HolderWrites(c, s, p, u);
    HolderRenames(c, mid, p, u);
    RunConcat(Steps(c), s, [Read(p), Update(p), BeginWrite(p)], [EndWrite(p), Rename(p), Release(p)], mid);
    assert [Read(p), Update(p), BeginWrite(p)] + [EndWrite(p), Rename(p), Release(p)] ==
           [Read(p), Update(p), BeginWrite(p), EndWrite(p), Rename(p), Release(p)];
    assert mid.calls[p := Done(Updated(u))] == s.calls[p := Done(Updated(u))];
  }

  lemma HolderWrites(c: Config, s: State, p: nat, u: Settings) returns (mid: State)
    requires p < |s.calls| == |c.updaters| && s.calls[p].Holding? && s.calls[p].phase == Reading
    requires c.updaters[p](c.load(s.file)) == Some(u)
    ensures mid == s.(calls := s.calls[p := Holding(s.calls[p].since, Written(u, false))], tmp := Garbled)
    ensures Run(Steps(c), s, [Read(p), Update(p), BeginWrite(p)]) == Some(mid)
  {
    var s1 := Step(c, s, Read(p)).value;
    var s2 := Step(c, s1, Update(p)).value;
    mid := Step(c, s2, BeginWrite(p)).value;
    assert mid.calls == s.calls[p := Holding(s.calls[p].since, Written(u, false))];
    RunStates(Steps(c), [s, s1, s2, mid], [Read(p), Update(p), BeginWrite(p)]);
  }

  lemma HolderRenames(c: Config, s: State, p: nat, u: Settings)
    requires p < |s.calls| == |c.updaters| && s.calls[p].Holding? && s.calls[p].phase == Written(u, false)
    ensures Run(Steps(c), s, [EndWrite(p), Rename(p), Release(p)]) ==
            Some(s.(calls := s.calls[p := Done(Updated(u))], lock := None, file := Stored(u), tmp := Missing))
  {
    var s1 := Step(c, s, EndWrite(p)).value;
    var s2 := Step(c, s1, Rename(p)).value;
    var s3 := Step(c, s2, Release(p)).value;
    assert s3.calls == s.calls[p := Done(Updated(u))];
    RunStates(Steps(c), [s, s1, s2, s3], [EndWrite(p), Rename(p), Release(p)]);
  }

  /** One whose updater throws changes no file but the lock, which it removes. */
  lemma HolderThrows(c: Config, s: State, p: nat)
    requires p < |s.calls| == |c.updaters| && s.calls[p].Holding? && s.calls[p].phase == Reading
    requires c.updaters[p](c.load(s.file)).None?
    ensures Run(Steps(c), s, [Read(p), Update(p), Release(p)]) ==
            Some(s.(calls := s.calls[p := Done(Threw)], lock := None))
  {
    var s1 := Step(c, s, Read(p)).value;
    var s2 := Step(c, s1, Update(p)).value;
    var s3 := Step(c, s2, Release(p)).value;
    assert s3.calls == s.calls[p := Done(Threw)];
    RunStates(Steps(c), [s, s1, s2, s3], [Read(p), Update(p), Release(p)]);
  }

  /** A file operation may fail at any moment, before the lock is taken or after: then the call throws, without the lock. */
  lemma FileErrorThrows(c: Config, s: State, p: nat)
    requires p < |s.calls| == |c.updaters|
    ensures s.calls[p].Holding? && !s.calls[p].phase.Releasing? ==>
              Run(Steps(c), s, [FileError(p), Release(p)]) == Some(s.(calls := s.calls[p := Done(Threw)], lock := None))
    ensures s.calls[p].Trying? ==> Step(c, s, OpenError(p)) == Some(s.(calls := s.calls[p := Done(Threw)]))
  {
    if s.calls[p].Holding? && !s.calls[p].phase.Releasing? {
      var s1 := Step(c, s, FileError(p)).value;
      var s2 := Step(c, s1, Release(p)).value;
      assert s2.calls == s.calls[p := Done(Threw)];
      RunStates(Steps(c), [s, s1, s2], [FileError(p), Release(p)]);
    }
  }

  // ---------- Exactly when the lock works ----------

  /** Two calls hold the lock, and nothing has been read or written yet. */
  predicate BothHold(s: State, r: State) {
    && 2 <= |s.calls| == |r.calls| && r.file == s.file && r.acquired == [0, 1]
    && r.calls[0].Holding? && r.calls[0].phase == Reading && r.calls[1].Holding? && r.calls[1].phase == Reading
  }

  /** A holder outlives the stale limit, and the second call opens, waits and unlinks; then it gets the lock. */
  const OUTLIVE := [Open(0), Tick(STALE_LOCK_TIMEOUT_MS + 1), Open(1)]
  const TAKE_OVER := [Stat(1), Unlink(1), Open(1)]

  /** Where holders may outlive the stale limit, the second call overtakes the first. */
  lemma Overtaken(c: Config, s: State) returns (actions: seq<Action>, r: State)
    requires Start(c, s) && |s.calls| >= 2 && s.lock.None? && c.holdLimit > STALE_LOCK_TIMEOUT_MS
    ensures Run(Steps(c), s, actions) == Some(r) && BothHold(s, r)
  {
    var t := s.now + (STALE_LOCK_TIMEOUT_MS + 1);
    var s1 := Set(s, 0, Holding(s.now, Reading)).(lock := Some(LockFile(s.now)), acquired := s.acquired + [0]);
    var s2 := s1.(now := t);
    var s3 := Set(s2, 1, Waiting(1));
    RunStates(Steps(c), [s, s1, s2, s3], OUTLIVE);
    var s4 := Set(s3, 1, Unlinking(1));
    var s5 := Set(s4, 1, Trying(1)).(lock := None);
    r := Set(s5, 1, Holding(t, Reading)).(lock := Some(LockFile(t)), acquired := s5.acquired + [1]);
    RunStates(Steps(c), [s3, s4, s5, r], TAKE_OVER);
    actions := OUTLIVE + TAKE_OVER;
    RunConcat(Steps(c), s, OUTLIVE, TAKE_OVER, s3);
  }

  /** Both calls find a leftover lock file and, when it is old enough, judge it stale. */
  const BOTH_WAIT := [Open(0), Open(1)]
  const BOTH_JUDGE := [Stat(0), Stat(1)]
  /** Each unlinks the lock file it finds, the second one that of the first. */
  const FIRST_TAKES := [Unlink(0), Open(0)]
  const SECOND_TAKES := [Unlink(1), Open(1)]

  lemma BothJudge(c: Config, s: State) returns (r: State)
    requires Start(c, s) && |s.calls| >= 2
    requires s.lock.Some? && s.now - s.lock.value.mtime > STALE_LOCK_TIMEOUT_MS
    ensures Run(Steps(c), s, BOTH_WAIT + BOTH_JUDGE) == Some(r)
    ensures r == s.(calls := s.calls[0 := Unlinking(1)][1 := Unlinking(1)])
  {
    var s1 := Set(s, 0, Waiting(1));
    var s2 := Set(s1, 1, Waiting(1));
    RunStates(Steps(c), [s, s1, s2], BOTH_WAIT);
    var s3 := Set(s2, 0, Unlinking(1));
    r := Set(s3, 1, Unlinking(1));
    RunStates(Steps(c), [s2, s3, r], BOTH_JUDGE);
    RunConcat(Steps(c), s, BOTH_WAIT, BOTH_JUDGE, s2);
    assert s.calls[0 := Waiting(1)][1 := Waiting(1)][0 := Unlinking(1)][1 := Unlinking(1)]
        == s.calls[0 := Unlinking(1)][1 := Unlinking(1)];
  }

  /** A call that is about to unlink gets the lock, whoever has taken it meanwhile. */
  lemma Takes(c: Config, s: State, p: nat) returns (r: State)
    requires p < |s.calls| == |c.updaters| && s.calls[p] == Unlinking(1)
    ensures Run(Steps(c), s, [Unlink(p), Open(p)]) == Some(r)
    ensures r.calls == s.calls[p := Holding(s.now, Reading)] && r.acquired == s.acquired + [p] && r.file == s.file
  {
    var s1 := Set(s, p, Trying(1)).(lock := None);
    r := Set(s1, p, Holding(s.now, Reading)).(lock := Some(LockFile(s.now)), acquired := s.acquired + [p]);
    RunStates(Steps(c), [s, s1, r], [Unlink(p), Open(p)]);
    assert s.calls[p := Trying(1)][p := Holding(s.now, Reading)] == s.calls[p := Holding(s.now, Reading)];
  }

  /** A lock file left behind by a crashed process lets two calls in, however short their holders' time. */
  lemma LeftoverRace(c: Config, s: State) returns (actions: seq<Action>, r: State)
    requires Start(c, s) && |s.calls| >= 2 && s.lock.Some?
    ensures Run(Steps(c), s, actions) == Some(r) && BothHold(s, r)
  {
    var age := s.now - s.lock.value.mtime;
    var ms := if age > STALE_LOCK_TIMEOUT_MS then 0 else STALE_LOCK_TIMEOUT_MS + 1 - age;
    var old' := s.(now := s.now + ms);
    RunStates(Steps(c), [s, old'], [Tick(ms)]);
    var judged := BothJudge(c, old');
    RunConcat(Steps(c), s, [Tick(ms)], BOTH_WAIT + BOTH_JUDGE, old');
    var first := Takes(c, judged, 0);
    RunConcat(Steps(c), s, [Tick(ms)] + (BOTH_WAIT + BOTH_JUDGE), FIRST_TAKES, judged);
    r := Takes(c, first, 1);
    RunConcat(Steps(c), s, [Tick(ms)] + (BOTH_WAIT + BOTH_JUDGE) + FIRST_TAKES, SECOND_TAKES, first);
    actions := [Tick(ms)] + (BOTH_WAIT + BOTH_JUDGE) + FIRST_TAKES + SECOND_TAKES;
  }

  lemma TwoHold(c: Config, s: State) returns (actions: seq<Action>, r: State)
    requires Start(c, s) && !Excludes(c.holdLimit, |s.calls|, s.lock.Some?)
    ensures Run(Steps(c), s, actions) == Some(r) && BothHold(s, r)
  {
    if s.lock.None? {
      actions, r := Overtaken(c, s);
    } else {
      actions, r := LeftoverRace(c, s);
    }
  }

  function LoadOrDefault(f: Content): Settings {
    if f.Stored? then f.settings else map[]
  }

  /** An updater that counts its applications. */
  function Count(s: Settings): Settings {
    s["count" := (if "count" in s then s["count"] else "") + "x"]
  }

  function Counting(calls: nat, limit: nat): Config {
    Config(seq(calls, _ => (s: Settings) => Some(Count(s))), LoadOrDefault, limit)
  }

  function WriteOut(p: nat): seq<Action> {
    [BeginWrite(p), EndWrite(p), Rename(p)]
  }

  lemma WritesOut(c: Config, s: State, p: nat, u: Settings) returns (r: State)
    requires p < |s.calls| == |c.updaters| && s.calls[p].Holding? && s.calls[p].phase == Writing(u)
    ensures Run(Steps(c), s, WriteOut(p)) == Some(r)
    ensures r.file == Stored(u) && r.acquired == s.acquired
    ensures r.calls == s.calls[p := Holding(s.calls[p].since, Releasing(Updated(u)))]
  {
    var t := s.calls[p].since;
    var s1 := Set(s, p, Holding(t, Written(u, false))).(tmp := Garbled);
    var s2 := Set(s1, p, Holding(t, Written(u, true))).(tmp := Stored(u));
    r := Set(s2, p, Holding(t, Releasing(Updated(u)))).(file := Stored(u), tmp := Missing);
    RunStates(Steps(c), [s, s1, s2, r], WriteOut(p));
  }

  function ReadIn(p: nat): seq<Action> {
    [Read(p), Update(p)]
  }

  lemma ReadsIn(c: Config, s: State, p: nat, u: Settings) returns (r: State)
    requires p < |s.calls| == |c.updaters| && s.calls[p].Holding? && s.calls[p].phase == Reading
    requires c.updaters[p](c.load(s.file)) == Some(u)
    ensures Run(Steps(c), s, ReadIn(p)) == Some(r)
    ensures r.file == s.file && r.acquired == s.acquired
    ensures r.calls == s.calls[p := Holding(s.calls[p].since, Writing(u))]
  {
    var t := s.calls[p].since;
    var s1 := Set(s, p, Holding(t, Updating(c.load(s.file))));
    r := Set(s1, p, Holding(t, Writing(u)));
    RunStates(Steps(c), [s, s1, r], ReadIn(p));
  }

  /** Both read before either writes, and the first to acquire overwrites the other's update. */
  lemma Overwritten(c: Config, s: State, u: Settings) returns (actions: seq<Action>, r: State)
    requires 2 <= |s.calls| == |c.updaters| && BothHold(s, s)
    requires c.updaters[0](c.load(s.file)) == c.updaters[1](c.load(s.file)) == Some(u)
    ensures Run(Steps(c), s, actions) == Some(r)
    ensures r.file == Stored(u) && r.acquired == [0, 1] && |r.calls| == |s.calls|
    ensures Committed(r.calls[0]) && Committed(r.calls[1])
  {
    var s1 := ReadsIn(c, s, 0, u);
    var s2 := ReadsIn(c, s1, 1, u);
    RunConcat(Steps(c), s, ReadIn(0), ReadIn(1), s1);
    var s3 := WritesOut(c, s2, 1, u);
    RunConcat(Steps(c), s, ReadIn(0) + ReadIn(1), WriteOut(1), s2);
    r := WritesOut(c, s3, 0, u);
    RunConcat(Steps(c), s, ReadIn(0) + ReadIn(1) + WriteOut(1), WriteOut(0), s3);
    actions := ReadIn(0) + ReadIn(1) + WriteOut(1) + WriteOut(0);
  }

  /** Applied one after another, the two calls would have counted twice. */
  lemma CountedTwice(c: Config, f: Content, calls: seq<Call>)
    requires 2 <= |calls| == |c.updaters| && Committed(calls[0]) && Committed(calls[1])
    requires c == Counting(|calls|, c.holdLimit)
    ensures Serial(c, f, calls, [0, 1]) == Stored(Count(Count(LoadOrDefault(f))))
    ensures Count(Count(LoadOrDefault(f))) != Count(LoadOrDefault(f))
  {
    assert [0, 1][..1] == [0] && [0][..0] == [];
    assert Serial(c, f, calls, []) == f;
    assert Serial(c, f, calls, [0]) == Stored(Count(LoadOrDefault(f)));
    var s := LoadOrDefault(f);
    assert |Count(Count(s))["count"]| == |Count(s)["count"]| + 1;
  }

  lemma UpdateLost(limit: nat, s: State) returns (c: Config, actions: seq<Action>, r: State)
    requires !Excludes(limit, |s.calls|, s.lock.Some?) && NotStarted(s)
    ensures Start(c, s) && c.holdLimit == limit && Run(Steps(c), s, actions) == Some(r)
    ensures |r.calls| == |c.updaters| && r.file != Serial(c, s.file, r.calls, r.acquired)
  {
    c := Counting(|s.calls|, limit);
    var before, mid := TwoHold(c, s);
    var rest;
    rest, r := Overwritten(c, mid, Count(LoadOrDefault(s.file)));
    actions := before + rest;
    RunConcat(Steps(c), s, before, rest, mid);
    CountedTwice(c, s.file, r.calls);
  }

  /**
   * Exactly when the lock excludes, for any calls, any files found at the start and any bound on how long
   * holders take: one call at most, or no lock file at the start and no holder beyond the stale limit.
   */
  lemma ExactExclusion(c: Config, s: State)
    requires Start(c, s)
    ensures Excludes(c.holdLimit, |s.calls|, s.lock.Some?) <==>
            forall actions :: Run(Steps(c), s, actions).Some? ==> MutualExclusion(Run(Steps(c), s, actions).value)
  {
    if Excludes(c.holdLimit, |s.calls|, s.lock.Some?) {
      forall actions | Run(Steps(c), s, actions).Some?
        ensures MutualExclusion(Run(Steps(c), s, actions).value)
      {
        RunExcludes(c, s, actions);
      }
    } else {
      var actions, r := TwoHold(c, s);
      assert r.calls[0].Holding? && r.calls[1].Holding?;
      assert !MutualExclusion(r);
    }
  }

  /** The same condition decides whether, for all updaters, no update is ever lost. */
  lemma ExactSerialisation(limit: nat, s: State)
    requires NotStarted(s)
    ensures Excludes(limit, |s.calls|, s.lock.Some?) <==>
            forall c, actions :: Start(c, s) && c.holdLimit == limit && Run(Steps(c), s, actions).Some? ==>
              var s' := Run(Steps(c), s, actions).value;
              s'.file == Serial(c, s.file, s'.calls, s'.acquired)
  {
    if Excludes(limit, |s.calls|, s.lock.Some?) {
      forall c, actions | Start(c, s) && c.holdLimit == limit && Run(Steps(c), s, actions).Some?
        ensures Safe(c, s.file, Run(Steps(c), s, actions).value)
      {
        TimelyRunsAreSafe(c, s, actions);
      }
    } else {
      var c, actions, r := UpdateLost(limit, s);
      assert Run(Steps(c), s, actions) == Some(r);
    }
  }
}
