/**
 * The daemon lock under concurrency: any number of processes that acquire, crash, reclaim, clear and
 * release, as steps over the lock file. A pid is never reused.
 */
module DaemonLock {
  import opened Wrappers
  import opened Runs
  import opened DaemonFiles

  datatype Stage =
    | WriteTemp
    | TempPartial
    | Link
    | UnlinkTemp
    | OpenHandle
    | CleanTemp
    | Inspect
    | Reclaim
    | Delay

  /** What a process is doing with the lock. `Stopping` has begun its own clean-up; `Closed` has closed its
      handle; `Releasing` has read its own pid from the lock; `Clearing` has cleared the state file. */
  datatype Proc =
    | Idle
    | Attempting(attempt: nat, stage: Stage)
    | Holding
    | Stopping
    | Closed
    | Releasing
    | Clearing(expected: int)
    | Stopped
    | Dead

  datatype State = State(
    lock: Option<Payload>,
    stateFile: Option<StateFile>,
    temps: map<int, Payload>,
    procs: map<int, Proc>)

  /** `atomicReclaim`: is the block that reads, checks and unlinks a lock one step, or are the check and
      the unlink two? */
  datatype Config = Config(maxAttempts: nat, atomicReclaim: bool)

  datatype Action =
    | Begin(p: int)
    | Advance(p: int)
    | Fault(p: int)
    | Crash(p: int)
    | WriteState(p: int)
    | ShutDown(p: int)
    | Close(p: int)
    | Clear(p: int, expected: int)

  function Alive(s: State): set<int> {
    set p | p in s.procs && !s.procs[p].Dead?
  }

  /** Any leftover files, and processes that have not started, or are already gone. */
  predicate Start(s: State) {
    forall p :: p in s.procs ==> IsPid(p) && (s.procs[p].Idle? || s.procs[p].Dead?)
  }

  function Set(s: State, p: int, proc: Proc): State {
    s.(procs := s.procs[p := proc])
  }

  /** After unlinking a stale lock: try again at once. */
  function NextAttempt(c: Config, n: nat): Proc {
    if n < c.maxAttempts then Attempting(n + 1, WriteTemp) else Stopped
  }

  /** After any other failure: wait, or give up. */
  function Failed(c: Config, n: nat): Proc {
    if n == c.maxAttempts then Stopped else Attempting(n, Delay)
  }

  /** One step of a process inside acquireDaemonLock. */
  function AttemptStep(c: Config, s: State, p: int, n: nat, stage: Stage): State {
    match stage
    case WriteTemp => Set(s, p, Attempting(n, TempPartial)).(temps := s.temps[p := Unparsable])
    case TempPartial => Set(s, p, Attempting(n, Link)).(temps := s.temps[p := Pid(p)])
    case Link =>
      if s.lock.None? && p in s.temps then Set(s, p, Attempting(n, UnlinkTemp)).(lock := Some(s.temps[p]))
      else Set(s, p, Attempting(n, CleanTemp))
    case UnlinkTemp => Set(s, p, Attempting(n, OpenHandle)).(temps := s.temps - {p})
    case OpenHandle => Set(s, p, if s.lock.Some? then Holding else Failed(c, n))
    case CleanTemp => Set(s, p, Attempting(n, Inspect)).(temps := s.temps - {p})
    case Inspect =>
      if c.atomicReclaim then
        var (after, reclaimed) := ReclaimBlock(s.lock, Alive(s));
        Set(s, p, if reclaimed then NextAttempt(c, n) else Failed(c, n)).(lock := after)
      else if s.lock.None? || Stale(s.lock.value, Alive(s)) then Set(s, p, Attempting(n, Reclaim))
      else Set(s, p, Failed(c, n))
    case Reclaim =>
      if s.lock.Some? then Set(s, p, NextAttempt(c, n)).(lock := None)
      else Set(s, p, Failed(c, n))
    case Delay => Set(s, p, Attempting(n + 1, WriteTemp))
  }

  /** One step; None when the action is not possible in the state. */
  function Step(c: Config, s: State, a: Action): Option<State> {
    if a.p !in s.procs then None
    else
      match (a, s.procs[a.p])
      case (Crash(p), Dead) => None
      case (Crash(p), _) => Some(Set(s, p, Dead))
      case (Begin(p), Idle) => Some(Set(s, p, if c.maxAttempts >= 1 then Attempting(1, WriteTemp) else Stopped))
      case (Advance(p), Attempting(n, stage)) => Some(AttemptStep(c, s, p, n, stage))
      case (Fault(p), Attempting(n, stage)) =>
        // An error other than EEXIST: no inspection, straight to the delay.
        if stage.WriteTemp? || stage.TempPartial? || stage.Link? || stage.OpenHandle? then
          Some(Set(s, p, Failed(c, n)).(temps := s.temps - {p}))
        else None
      // A daemon records itself, and clears its own files before releasing.
      case (WriteState(p), Holding) => Some(s.(stateFile := Some(Recorded(p))))
      case (ShutDown(p), Holding) =>
        var (after, reached) := ClearStateBlock(s.stateFile, Some(p));
        Some(Set(s, p, Stopping).(stateFile := after, lock := if reached then ClearLockBlock(s.lock, Some(p)) else s.lock))
      case (Close(p), Holding) => Some(Set(s, p, Closed))
      case (Close(p), Stopping) => Some(Set(s, p, Closed))
      case (Advance(p), Closed) => Some(Set(s, p, if s.lock == Some(Pid(p)) then Releasing else Stopped))
      case (Advance(p), Releasing) => Some(Set(s, p, Stopped).(lock := None))
      // A control client clears the files of a daemon it has found dead.
      case (Clear(p, e), Idle) =>
        if e in Alive(s) then None
        else
          var (after, reached) := ClearStateBlock(s.stateFile, Some(e));
          Some(Set(s, p, if reached then Clearing(e) else Idle).(stateFile := after))
      case (Advance(p), Clearing(e)) => Some(Set(s, p, Idle).(lock := ClearLockBlock(s.lock, Some(e))))
      case _ => None
  }

  function Steps(c: Config): (State, Action) -> Option<State> {
    (s, a) => Step(c, s, a)
  }

  // ---------- The invariant ----------

  /** The process has linked its pid into place and relies on it. */
  predicate Owns(proc: Proc) {
    proc.Holding? || proc.Releasing? || (proc.Attempting? && (proc.stage.UnlinkTemp? || proc.stage.OpenHandle?))
  }

  ghost predicate Inv(s: State) {
    && (forall p :: p in s.procs ==> IsPid(p))
    && (forall p :: p in s.procs && Owns(s.procs[p]) ==> s.lock == Some(Pid(p)))
    && (forall p :: p in s.procs && s.procs[p].Attempting? && s.procs[p].stage.Link? ==>
          p in s.temps && s.temps[p] == Pid(p))
    && (forall p :: p in s.procs && s.procs[p].Attempting? ==> !s.procs[p].stage.Reclaim?)
    && (forall p :: p in s.procs && s.procs[p].Clearing? ==> s.procs[p].expected !in Alive(s))
  }

  /** At most one live process holds the lock, and the lock file is its complete pid. */
  ghost predicate MutualExclusion(s: State) {
    && (forall p, q :: p in s.procs && q in s.procs && s.procs[p].Holding? && s.procs[q].Holding? ==> p == q)
    && (forall p :: p in s.procs && s.procs[p].Holding? ==> s.lock == Some(Pid(p)))
  }

  /** Only the process that moves can come to life, and none does. */
  lemma AliveShrinks(s: State, p: int, proc: Proc)
    requires p in s.procs && (s.procs[p].Dead? ==> proc.Dead?)
    ensures Alive(Set(s, p, proc)) <= Alive(s)
  {
  }

  /** A process moves and the lock stays. */
  lemma MoveKeeps(s: State, p: int, proc: Proc, temps: map<int, Payload>, stateFile: Option<StateFile>)
    requires Inv(s) && p in s.procs && !s.procs[p].Dead?
    requires Owns(proc) ==> s.lock == Some(Pid(p))
    requires forall q :: q in s.procs && q != p && q in s.temps ==> q in temps && temps[q] == s.temps[q]
    requires proc.Attempting? ==> !proc.stage.Reclaim? && (proc.stage.Link? ==> p in temps && temps[p] == Pid(p))
    requires proc.Clearing? ==> proc.expected !in Alive(s)
    ensures Inv(Set(s, p, proc).(temps := temps, stateFile := stateFile))
  {
    AliveShrinks(s, p, proc);
  }

  /** A lock that no live process owns goes away, or a process moves and gives up its own. */
  lemma UnlinkKeeps(s: State, p: int, proc: Proc, stateFile: Option<StateFile>)
    requires Inv(s) && p in s.procs && !s.procs[p].Dead?
    requires !Owns(proc) && (proc.Attempting? ==> proc.stage.WriteTemp? || proc.stage.Delay?) && !proc.Clearing?
    requires forall q :: q in s.procs && q != p ==> !Owns(s.procs[q])
    ensures Inv(Set(s, p, proc).(lock := None, stateFile := stateFile))
  {
    AliveShrinks(s, p, proc);
  }

  lemma LinkKeeps(s: State, p: int, n: nat)
    requires Inv(s) && p in s.procs && s.procs[p] == Attempting(n, Link) && s.lock.None?
    ensures Inv(Set(s, p, Attempting(n, UnlinkTemp)).(lock := Some(s.temps[p])))
  {
    AliveShrinks(s, p, Attempting(n, UnlinkTemp));
  }

  /** A lock naming a pid that is not alive, or none, is owned by nobody. */
  lemma StaleUnowned(s: State)
    requires Inv(s) && s.lock.Some? && Stale(s.lock.value, Alive(s))
    ensures forall q :: q in s.procs ==> !Owns(s.procs[q])
  {
  }

  lemma AttemptKeeps(c: Config, s: State, p: int, n: nat, stage: Stage)
    requires Inv(s) && c.atomicReclaim && p in s.procs && s.procs[p] == Attempting(n, stage)
    ensures Inv(AttemptStep(c, s, p, n, stage))
  {
    match stage
    case Link =>
      if s.lock.None? { LinkKeeps(s, p, n); } else { MoveKeeps(s, p, Attempting(n, CleanTemp), s.temps, s.stateFile); }
    case Inspect =>
      var (after, reclaimed) := ReclaimBlock(s.lock, Alive(s));
      if reclaimed {
        StaleUnowned(s);
        UnlinkKeeps(s, p, NextAttempt(c, n), s.stateFile);
      } else {
        MoveKeeps(s, p, Failed(c, n), s.temps, s.stateFile);
      }
    case WriteTemp => MoveKeeps(s, p, Attempting(n, TempPartial), s.temps[p := Unparsable], s.stateFile);
    case TempPartial => MoveKeeps(s, p, Attempting(n, Stage.Link), s.temps[p := Pid(p)], s.stateFile);
    case UnlinkTemp => MoveKeeps(s, p, Attempting(n, OpenHandle), s.temps - {p}, s.stateFile);
    case OpenHandle => MoveKeeps(s, p, Holding, s.temps, s.stateFile);
    case CleanTemp => MoveKeeps(s, p, Attempting(n, Stage.Inspect), s.temps - {p}, s.stateFile);
    case Reclaim =>
    case Delay => MoveKeeps(s, p, Attempting(n + 1, WriteTemp), s.temps, s.stateFile);
  }

  lemma ShutDownKeeps(c: Config, s: State, p: int)
    requires Inv(s) && p in s.procs && s.procs[p].Holding?
    ensures Inv(Step(c, s, ShutDown(p)).value)
  {
    var (after, reached) := ClearStateBlock(s.stateFile, Some(p));
    if reached {
      UnlinkKeeps(s, p, Stopping, after);
    } else {
      MoveKeeps(s, p, Stopping, s.temps, after);
    }
  }

  lemma ClearKeeps(c: Config, s: State, p: int, e: int)
    requires Inv(s) && p in s.procs && s.procs[p] == Clearing(e)
    ensures Inv(Step(c, s, Advance(p)).value)
  {
    if s.lock == Some(Pid(e)) {
      StaleUnowned(s);
      UnlinkKeeps(s, p, Idle, s.stateFile);
    } else {
      MoveKeeps(s, p, Idle, s.temps, s.stateFile);
    }
  }

  lemma StepKeeps(c: Config, s: State, a: Action)
    requires Inv(s) && c.atomicReclaim && Step(c, s, a).Some?
    ensures Inv(Step(c, s, a).value)
  {
    match (a, s.procs[a.p])
    case (Crash(p), _) => MoveKeeps(s, p, Dead, s.temps, s.stateFile);
    case (Begin(p), _) =>
      MoveKeeps(s, p, if c.maxAttempts >= 1 then Attempting(1, WriteTemp) else Stopped, s.temps, s.stateFile);
    case (Advance(p), Attempting(n, stage)) => AttemptKeeps(c, s, p, n, stage);
    case (Fault(p), Attempting(n, stage)) => MoveKeeps(s, p, Failed(c, n), s.temps - {p}, s.stateFile);
    case (WriteState(p), _) =>
    case (ShutDown(p), _) => ShutDownKeeps(c, s, p);
    case (Close(p), _) => MoveKeeps(s, p, Closed, s.temps, s.stateFile);
    case (Advance(p), Closed) =>
      MoveKeeps(s, p, if s.lock == Some(Pid(p)) then Releasing else Stopped, s.temps, s.stateFile);
    case (Advance(p), Releasing) => UnlinkKeeps(s, p, Stopped, s.stateFile);
    case (Clear(p, e), _) =>
      var (after, reached) := ClearStateBlock(s.stateFile, Some(e));
      MoveKeeps(s, p, if reached then Clearing(e) else Idle, s.temps, after);
    case (Advance(p), Clearing(e)) => ClearKeeps(c, s, p, e);
    case _ =>
  }

  lemma {:induction false} RunKeeps(c: Config, s: State, actions: seq<Action>)
    requires Start(s) && c.atomicReclaim && Run(Steps(c), s, actions).Some?
    ensures Inv(Run(Steps(c), s, actions).value)
  {
    if actions != [] {
      RunKeeps(c, s, actions[..|actions| - 1]);
      StepKeeps(c, Run(Steps(c), s, actions[..|actions| - 1]).value, actions[|actions| - 1]);
    }
  }

  // ---------- Main results ----------

  /** A process enters acquireDaemonLock, and takes three steps more. */
  function Begins(p: int): seq<Action> {
    [Begin(p), Advance(p), Advance(p)]
  }

  function Continues(p: int): seq<Action> {
    [Advance(p), Advance(p), Advance(p)]
  }

  function Enter(p: int): seq<Action> {
    Begins(p) + Continues(p)
  }

  /** Three steps write the temporary file. */
  lemma WritesTemp(c: Config, s: State, p: int) returns (r: State)
    requires c.maxAttempts >= 1 && p in s.procs && s.procs[p] == Idle
    ensures Run(Steps(c), s, Begins(p)) == Some(r)
    ensures r.lock == s.lock && r.procs == s.procs[p := Attempting(1, Link)] && p in r.temps && r.temps[p] == Pid(p)
  {
    var s1 := Set(s, p, Attempting(1, WriteTemp));
    var s2 := AttemptStep(c, s1, p, 1, WriteTemp);
    r := AttemptStep(c, s2, p, 1, TempPartial);
    RunStates(Steps(c), [s, s1, s2, r], Begins(p));
  }

  /** With the lock free, six steps take it. */
  lemma EnterFree(c: Config, s: State, p: int) returns (r: State)
    requires c.maxAttempts >= 1 && p in s.procs && s.procs[p] == Idle && s.lock.None?
    ensures Run(Steps(c), s, Enter(p)) == Some(r)
    ensures r.lock == Some(Pid(p)) && r.procs == s.procs[p := Holding]
  {
    var s3 := WritesTemp(c, s, p);
    var s4 := AttemptStep(c, s3, p, 1, Link);
    var s5 := AttemptStep(c, s4, p, 1, UnlinkTemp);
    r := AttemptStep(c, s5, p, 1, OpenHandle);
    RunStates(Steps(c), [s3, s4, s5, r], Continues(p));
    RunConcat(Steps(c), s, Begins(p), Continues(p), s3);
  }

  /** With a stale lock, and the unlink apart from the check, six steps lead to just before the unlink. */
  lemma EnterStale(c: Config, s: State, p: int) returns (r: State)
    requires c.maxAttempts >= 1 && !c.atomicReclaim && p in s.procs && s.procs[p] == Idle
    requires s.lock == Some(Unparsable)
    ensures Run(Steps(c), s, Enter(p)) == Some(r)
    ensures r.lock == s.lock && r.procs == s.procs[p := Attempting(1, Reclaim)]
  {
    var s3 := WritesTemp(c, s, p);
    var s4 := AttemptStep(c, s3, p, 1, Link);
    var s5 := AttemptStep(c, s4, p, 1, CleanTemp);
    r := AttemptStep(c, s5, p, 1, Inspect);
    RunStates(Steps(c), [s3, s4, s5, r], Continues(p));
    RunConcat(Steps(c), s, Begins(p), Continues(p), s3);
  }

  // ---------- One contender, and one daemon's life ----------

  predicate OnlyBy(actions: seq<Action>, p: int) {
    forall i :: 0 <= i < |actions| ==> actions[i].p == p
  }

  lemma OnlyByConcat(a: seq<Action>, b: seq<Action>, p: int)
    requires OnlyBy(a, p) && OnlyBy(b, p)
    ensures OnlyBy(a + b, p)
  {
  }

  /** At the start of an attempt: two steps write the temporary file. */
  lemma WritesAttempt(c: Config, s: State, p: int, n: nat) returns (r: State)
    requires p in s.procs && s.procs[p] == Attempting(n, WriteTemp)
    ensures Run(Steps(c), s, [Advance(p), Advance(p)]) == Some(r)
    ensures r.lock == s.lock && r.procs == s.procs[p := Attempting(n, Link)] && p in r.temps && r.temps[p] == Pid(p)
  {
    var s1 := AttemptStep(c, s, p, n, WriteTemp);
    r := AttemptStep(c, s1, p, n, TempPartial);
    RunStates(Steps(c), [s, s1, r], [Advance(p), Advance(p)]);
  }

  /** An attempt on a free lock succeeds. */
  lemma AttemptFree(c: Config, s: State, p: int, n: nat) returns (actions: seq<Action>, r: State)
    requires p in s.procs && s.procs[p] == Attempting(n, WriteTemp) && s.lock.None?
    ensures Run(Steps(c), s, actions) == Some(r) && OnlyBy(actions, p)
    ensures r.lock == Some(Pid(p)) && r.procs == s.procs[p := Holding]
  {
    var s3 := WritesAttempt(c, s, p, n);
    var s4 := AttemptStep(c, s3, p, n, Link);
    var s5 := AttemptStep(c, s4, p, n, UnlinkTemp);
    r := AttemptStep(c, s5, p, n, OpenHandle);
    RunStates(Steps(c), [s3, s4, s5, r], Continues(p));
    RunConcat(Steps(c), s, [Advance(p), Advance(p)], Continues(p), s3);
    actions := [Advance(p), Advance(p)] + Continues(p);
  }

  /** An attempt that finds a lock goes on to inspect it. */
  lemma AttemptTaken(c: Config, s: State, p: int, n: nat) returns (actions: seq<Action>, r: State)
    requires p in s.procs && s.procs[p] == Attempting(n, WriteTemp) && s.lock.Some?
    ensures Run(Steps(c), s, actions) == Some(r) && OnlyBy(actions, p)
    ensures r.lock == s.lock && r.procs == s.procs[p := Attempting(n, Inspect)]
  {
    var s3 := WritesAttempt(c, s, p, n);
    var s4 := AttemptStep(c, s3, p, n, Link);
    r := AttemptStep(c, s4, p, n, CleanTemp);
    RunStates(Steps(c), [s3, s4, r], [Advance(p), Advance(p)]);
    RunConcat(Steps(c), s, [Advance(p), Advance(p)], [Advance(p), Advance(p)], s3);
    actions := [Advance(p), Advance(p)] + [Advance(p), Advance(p)];
  }

  /** One more step of the same process. */
  lemma OneMoreStep(c: Config, s: State, actions: seq<Action>, mid: State, a: Action, r: State)
    requires Run(Steps(c), s, actions) == Some(mid) && OnlyBy(actions, a.p) && Step(c, mid, a) == Some(r)
    ensures Run(Steps(c), s, actions + [a]) == Some(r) && OnlyBy(actions + [a], a.p)
  {
    RunStates(Steps(c), [mid, r], [a]);
    RunConcat(Steps(c), s, actions, [a], mid);
  }

  lemma Joined(c: Config, s: State, a: seq<Action>, mid: State, b: seq<Action>, r: State, p: int)
    requires Run(Steps(c), s, a) == Some(mid) && Run(Steps(c), mid, b) == Some(r) && OnlyBy(a, p) && OnlyBy(b, p)
    ensures Run(Steps(c), s, a + b) == Some(r) && OnlyBy(a + b, p)
  {
    RunConcat(Steps(c), s, a, b, mid);
    OnlyByConcat(a, b, p);
  }

  /**
   * A contender that nobody interrupts, facing a lock that names no process, or one that is dead or was
   * never there, holds the lock at its second attempt.
   */
  lemma DeadLockIsTaken(c: Config, s: State, p: int) returns (actions: seq<Action>, r: State)
    requires c.maxAttempts >= 2 && c.atomicReclaim && p in s.procs && s.procs[p] == Idle
    requires s.lock.Some?
    requires s.lock.value.Pid? && 0 < s.lock.value.n <= 9007199254740991 ==>
               s.lock.value.n !in s.procs || s.procs[s.lock.value.n] == Dead
    ensures Run(Steps(c), s, actions) == Some(r) && OnlyBy(actions, p)
    ensures r.lock == Some(Pid(p)) && r.procs == s.procs[p := Holding]
  {
    var s1 := Set(s, p, Attempting(1, WriteTemp));
    OneMoreStep(c, s, [], s, Begin(p), s1);
    var first, s2 := TakesDead(c, s1, p);
    var second;
    second, r := AttemptFree(c, s2, p, 2);
    Joined(c, s, [] + [Begin(p)], s1, first, s2, p);
    Joined(c, s, ([] + [Begin(p)]) + first, s2, second, r, p);
    actions := (([] + [Begin(p)]) + first) + second;
    assert r.procs == s.procs[p := Holding];
  }

  /** Its first attempt removes the lock. */
  lemma TakesDead(c: Config, s: State, p: int) returns (actions: seq<Action>, r: State)
    requires c.maxAttempts >= 2 && c.atomicReclaim && p in s.procs && s.procs[p] == Attempting(1, WriteTemp)
    requires s.lock.Some?
    requires s.lock.value.Pid? && 0 < s.lock.value.n <= 9007199254740991 ==>
               s.lock.value.n !in s.procs || s.procs[s.lock.value.n] == Dead
    ensures Run(Steps(c), s, actions) == Some(r) && OnlyBy(actions, p)
    ensures r.lock == None && r.procs == s.procs[p := Attempting(2, WriteTemp)]
  {
    var first, mid := AttemptTaken(c, s, p, 1);
    r := AttemptStep(c, mid, p, 1, Inspect);
    OneMoreStep(c, s, first, mid, Advance(p), r);
    actions := first + [Advance(p)];
  }

  /** One attempt at a lock that names a live process changes nothing but the contender. */
  lemma LiveAttempt(c: Config, s: State, p: int, n: nat, q: int) returns (actions: seq<Action>, r: State)
    requires p in s.procs && s.procs[p] == Attempting(n, WriteTemp)
    requires s.lock == Some(Pid(q)) && 0 < q <= 9007199254740991 && q in s.procs && s.procs[q] != Dead
    ensures Run(Steps(c), s, actions) == Some(r) && OnlyBy(actions, p) && r.lock == s.lock
    ensures r.procs == s.procs[p := if n == c.maxAttempts then Stopped else Attempting(n, Delay)]
  {
    var before, mid := AttemptTaken(c, s, p, n);
    r := AttemptStep(c, mid, p, n, Inspect);
    assert q in Alive(mid);
    OneMoreStep(c, s, before, mid, Advance(p), r);
    actions := before + [Advance(p)];
  }

  lemma {:induction false} LiveAttempts(c: Config, s: State, p: int, n: nat, q: int)
    returns (actions: seq<Action>, r: State)
    requires p in s.procs && s.procs[p] == Attempting(n, WriteTemp) && n <= c.maxAttempts
    requires s.lock == Some(Pid(q)) && 0 < q <= 9007199254740991 && q in s.procs && s.procs[q] != Dead
    ensures Run(Steps(c), s, actions) == Some(r) && OnlyBy(actions, p)
    ensures r.lock == s.lock && r.procs == s.procs[p := Stopped]
    decreases c.maxAttempts - n
  {
    actions, r := LiveAttempt(c, s, p, n, q);
    if n < c.maxAttempts {
      var next := AttemptStep(c, r, p, n, Delay);
      OneMoreStep(c, s, actions, r, Advance(p), next);
      var before := actions + [Advance(p)];
      var rest;
      rest, r := LiveAttempts(c, next, p, n + 1, q);
      RunConcat(Steps(c), s, before, rest, next);
      actions := before + rest;
    }
  }

  /** A contender facing a lock that names a live process gives up after its last attempt and leaves the lock. */
  lemma LiveLockIsLeft(c: Config, s: State, p: int, q: int) returns (actions: seq<Action>, r: State)
    requires c.maxAttempts >= 1 && p in s.procs && s.procs[p] == Idle
    requires s.lock == Some(Pid(q)) && 0 < q <= 9007199254740991 && q in s.procs && s.procs[q] != Dead
    ensures Run(Steps(c), s, actions) == Some(r) && OnlyBy(actions, p)
    ensures r.lock == s.lock && r.procs == s.procs[p := Stopped]
  {
    var s1 := Set(s, p, Attempting(1, WriteTemp));
    OneMoreStep(c, s, [], s, Begin(p), s1);
    var rest;
    rest, r := LiveAttempts(c, s1, p, 1, q);
    RunConcat(Steps(c), s, [Begin(p)], rest, s1);
    actions := [Begin(p)] + rest;
    assert r.procs == s.procs[p := Stopped];
  }

  /**
   * A daemon that shuts down removes its lock, and its state file unless another daemon has replaced it;
   * in that case releasing the lock is left to the end.
   */
  lemma CleanExit(c: Config, s: State, p: int) returns (actions: seq<Action>, r: State)
    requires p in s.procs && s.procs[p] == Holding && s.lock == Some(Pid(p))
    ensures Run(Steps(c), s, actions) == Some(r) && OnlyBy(actions, p)
    ensures r.lock == None && r.procs == s.procs[p := Stopped]
    ensures r.stateFile == if s.stateFile == Some(Recorded(p)) then None else s.stateFile
  {
    var s1 := Step(c, s, ShutDown(p)).value;
    OneMoreStep(c, s, [], s, ShutDown(p), s1);
    var s2 := Set(s1, p, Closed);
    OneMoreStep(c, s, [ShutDown(p)], s1, Close(p), s2);
    actions := [ShutDown(p)] + [Close(p)];
    if s1.lock == None {
      r := Set(s2, p, Stopped);
      OneMoreStep(c, s, actions, s2, Advance(p), r);
      actions := actions + [Advance(p)];
    } else {
      var s3 := Set(s2, p, Releasing);
      OneMoreStep(c, s, actions, s2, Advance(p), s3);
      r := Set(s3, p, Stopped).(lock := None);
      OneMoreStep(c, s, actions + [Advance(p)], s3, Advance(p), r);
      actions := actions + [Advance(p)] + [Advance(p)];
    }
    assert r.procs == s.procs[p := Stopped];
  }

  /** A daemon that holds the lock records itself, and after a clean exit neither file names it. */
  lemma RecordsItself(c: Config, s: State, p: int) returns (actions: seq<Action>, r: State)
    requires p in s.procs && s.procs[p] == Holding && s.lock == Some(Pid(p))
    ensures Step(c, s, WriteState(p)) == Some(s.(stateFile := Some(Recorded(p))))
    ensures Run(Steps(c), s, [WriteState(p)] + actions) == Some(r)
    ensures r.lock == None && r.stateFile == None && r.procs == s.procs[p := Stopped]
  {
    var s1 := s.(stateFile := Some(Recorded(p)));
    OneMoreStep(c, s, [], s, WriteState(p), s1);
    actions, r := CleanExit(c, s1, p);
    RunConcat(Steps(c), s, [WriteState(p)], actions, s1);
  }

  /** Any process can die at any moment; its files stay behind. */
  lemma CrashesAnywhere(c: Config, s: State, p: int)
    requires p in s.procs && s.procs[p] != Dead
    ensures Step(c, s, Crash(p)) == Some(s.(procs := s.procs[p := Dead]))
  {
  }

  /**
   * When creating, linking or opening fails for another reason than a lock in the way, the attempt is
   * over without a look at the lock: the process waits for the next one, or gives up after the last. So
   * it does when a stale lock it was about to unlink has gone.
   */
  lemma FaultEndsAttempt(c: Config, s: State, p: int, n: nat, stage: Stage)
    requires p in s.procs && s.procs[p] == Attempting(n, stage)
    ensures var ended := s.procs[p := if n == c.maxAttempts then Stopped else Attempting(n, Delay)];
            && (stage == WriteTemp || stage == TempPartial || stage == Link || stage == OpenHandle ==>
                  Step(c, s, Fault(p)) == Some(s.(procs := ended, temps := s.temps - {p})))
            && (stage == UnlinkTemp || stage == CleanTemp || stage == Inspect || stage == Reclaim || stage == Delay ==>
                  Step(c, s, Fault(p)) == None)
            && (stage == Reclaim && s.lock.None? ==> Step(c, s, Advance(p)) == Some(s.(procs := ended)))
  {
  }

  /** Shutting down, a daemon at once removes its state file and its lock, unless another daemon has recorded itself. */
  lemma ShutDownClears(c: Config, s: State, p: int)
    requires p in s.procs && s.procs[p] == Holding
    ensures Step(c, s, ShutDown(p)) ==
            Some(if s.stateFile.Some? && s.stateFile.value != Recorded(p) then s.(procs := s.procs[p := Stopping])
                 else s.(procs := s.procs[p := Stopping], stateFile := None,
                         lock := if s.lock == Some(Pid(p)) then None else s.lock))
  {
  }

  /** A control client that finds a daemon dead clears the files that name it, and no others. */
  lemma ClientClears(c: Config, s: State, p: int, e: int) returns (actions: seq<Action>, r: State)
    requires p in s.procs && s.procs[p] == Idle && (e !in s.procs || s.procs[e] == Dead)
    ensures Run(Steps(c), s, actions) == Some(r) && OnlyBy(actions, p) && r.procs == s.procs
    ensures s.stateFile.Some? && s.stateFile.value != Recorded(e) ==> r.stateFile == s.stateFile && r.lock == s.lock
    ensures s.stateFile.None? || s.stateFile.value == Recorded(e) ==>
              r.stateFile == None && r.lock == if s.lock == Some(Pid(e)) then None else s.lock
  {
    if s.stateFile.None? || s.stateFile.value == Recorded(e) {
      actions, r := ClearsBoth(c, s, p, e);
    } else {
      r := Set(s, p, Idle);
      OneMoreStep(c, s, [], s, Clear(p, e), r);
      actions := [] + [Clear(p, e)];
      assert r.procs == s.procs;
    }
  }

  lemma ClearsBoth(c: Config, s: State, p: int, e: int) returns (actions: seq<Action>, r: State)
    requires p in s.procs && s.procs[p] == Idle && (e !in s.procs || s.procs[e] == Dead)
    requires s.stateFile.None? || s.stateFile.value == Recorded(e)
    ensures Run(Steps(c), s, actions) == Some(r) && OnlyBy(actions, p) && r.procs == s.procs
    ensures r.stateFile == None && r.lock == if s.lock == Some(Pid(e)) then None else s.lock
  {
    var s1 := Set(s, p, Clearing(e)).(stateFile := None);
    OneMoreStep(c, s, [], s, Clear(p, e), s1);
    r := Set(s1, p, Idle).(lock := if s.lock == Some(Pid(e)) then None else s.lock);
    OneMoreStep(c, s, [] + [Clear(p, e)], s1, Advance(p), r);
    actions := ([] + [Clear(p, e)]) + [Advance(p)];
    assert r.procs == s.procs;
  }

  /** Four processes find a lock file that names nobody. */
  const FOUR := State(Some(Unparsable), None, map[], map[1 := Idle, 2 := Idle, 3 := Idle, 4 := Idle])

  /** 1 and 2 both judge the lock stale; 2 unlinks it; 3 acquires; 1 is still about to unlink. */
  lemma RaceBegins(c: Config) returns (actions: seq<Action>, r: State)
    requires c.maxAttempts >= 1 && !c.atomicReclaim
    ensures Run(Steps(c), FOUR, actions) == Some(r)
    ensures r.lock == Some(Pid(3)) && r.procs.Keys == {1, 2, 3, 4}
    ensures r.procs[1] == Attempting(1, Reclaim) && r.procs[3] == Holding && r.procs[4] == Idle
  {
    var a := EnterStale(c, FOUR, 1);
    var b := EnterStale(c, a, 2);
    RunConcat(Steps(c), FOUR, Enter(1), Enter(2), a);
    var d := Step(c, b, Advance(2)).value;
    RunConcat(Steps(c), FOUR, Enter(1) + Enter(2), [Advance(2)], b);
    RunStates(Steps(c), [b, d], [Advance(2)]);
    r := EnterFree(c, d, 3);
    RunConcat(Steps(c), FOUR, Enter(1) + Enter(2) + [Advance(2)], Enter(3), d);
    actions := Enter(1) + Enter(2) + [Advance(2)] + Enter(3);
  }

  /** 1 unlinks the lock of 3; 4 acquires. */
  lemma ReclaimRace(c: Config) returns (actions: seq<Action>, r: State)
    requires c.maxAttempts >= 1 && !c.atomicReclaim
    ensures Run(Steps(c), FOUR, actions) == Some(r)
    ensures 3 in r.procs && 4 in r.procs && r.procs[3].Holding? && r.procs[4].Holding?
  {
    var before, e := RaceBegins(c);
    var f := Step(c, e, Advance(1)).value;
    RunConcat(Steps(c), FOUR, before, [Advance(1)], e);
    RunStates(Steps(c), [e, f], [Advance(1)]);
    r := EnterFree(c, f, 4);
    RunConcat(Steps(c), FOUR, before + [Advance(1)], Enter(4), f);
    actions := before + [Advance(1)] + Enter(4);
  }

  // ---------- Whose files are removed ----------

  /** The step removes the process's own lock, a stale one it inspects, or that of the dead daemon it clears. */
  ghost predicate RemovableLock(s: State, a: Action)
    requires a.p in s.procs && s.lock.Some?
  {
    || s.lock.value == Pid(a.p)
    || (s.procs[a.p].Attempting? && s.procs[a.p].stage.Inspect? && Stale(s.lock.value, Alive(s)))
    || (s.procs[a.p].Clearing? && s.lock.value == Pid(s.procs[a.p].expected) && s.procs[a.p].expected !in Alive(s))
  }

  /** The step removes the process's own state file, or that of a daemon found dead. */
  ghost predicate RemovableState(s: State, a: Action)
    requires s.stateFile.Some?
  {
    || s.stateFile.value == Recorded(a.p)
    || (a.Clear? && s.stateFile.value == Recorded(a.expected) && a.expected !in Alive(s))
  }

  lemma StepRemoves(c: Config, s: State, a: Action)
    requires Inv(s) && c.atomicReclaim && Step(c, s, a).Some?
    ensures a.p in s.procs
    ensures s.lock.Some? && Step(c, s, a).value.lock != s.lock ==> RemovableLock(s, a)
    ensures s.stateFile.Some? && Step(c, s, a).value.stateFile.None? ==> RemovableState(s, a)
  {
    if s.procs[a.p].Releasing? {
      assert Owns(s.procs[a.p]);
    }
  }

  /**
   * In any run no step of acquiring, reclaiming, clearing or releasing removes a lock file except the
   * process's own, a stale one that it inspects, or that of the dead daemon it clears; no step removes a
   * state file except the process's own or that of a daemon found dead. So a live process's lock and
   * state file are removed by nobody else.
   */
  lemma OnlyOwnOrDeadRemoved(c: Config, s: State, actions: seq<Action>, a: Action)
    requires Start(s) && c.atomicReclaim && Run(Steps(c), s, actions).Some?
    requires Step(c, Run(Steps(c), s, actions).value, a).Some?
    ensures var before, after := Run(Steps(c), s, actions).value, Step(c, Run(Steps(c), s, actions).value, a).value;
            && a.p in before.procs
            && (before.lock.Some? && after.lock != before.lock ==> RemovableLock(before, a))
            && (before.stateFile.Some? && after.stateFile.None? ==> RemovableState(before, a))
            && forall q :: q in Alive(before) && q != a.p ==>
                 && (before.lock == Some(Pid(q)) ==> after.lock == before.lock)
                 && (before.stateFile == Some(Recorded(q)) ==> after.stateFile.Some?)
  {
    RunKeeps(c, s, actions);
    var before := Run(Steps(c), s, actions).value;
    StepRemoves(c, before, a);
    forall q | q in Alive(before) && before.lock == Some(Pid(q)) ensures !Stale(before.lock.value, Alive(before)) {
      assert q in before.procs;
    }
  }

  /** A live process's lock is removed by itself alone, in all runs, if and only if the reclaiming block is one step. */
  lemma ExactRemoval(c: Config)
    requires c.maxAttempts >= 1
    ensures c.atomicReclaim <==>
            forall s, actions, a, q :: Start(s) && Run(Steps(c), s, actions).Some? ==>
              var before := Run(Steps(c), s, actions).value;
              Step(c, before, a).Some? && q in Alive(before) && before.lock == Some(Pid(q)) && a.p != q ==>
                Step(c, before, a).value.lock == before.lock
  {
    if c.atomicReclaim {
      forall s, actions, a, q | && Start(s) && Run(Steps(c), s, actions).Some?
                                && Step(c, Run(Steps(c), s, actions).value, a).Some?
                                && q in Alive(Run(Steps(c), s, actions).value) && a.p != q
                                && Run(Steps(c), s, actions).value.lock == Some(Pid(q))
        ensures Step(c, Run(Steps(c), s, actions).value, a).value.lock == Run(Steps(c), s, actions).value.lock
      {
        OnlyOwnOrDeadRemoved(c, s, actions, a);
      }
    } else {
      var actions, r := RaceBegins(c);
      assert Start(FOUR);
      assert 3 in Alive(r) && Step(c, r, Advance(1)).Some? && Step(c, r, Advance(1)).value.lock.None?;
    }
  }

  /**
   * Exactly when the daemon lock excludes: for any number of processes and any interleaving of
   * acquiring, failing, crashing, reclaiming, clearing and releasing, at most one live process holds the
   * lock and the lock file is its complete pid, if and only if the reclaiming block is one step.
   */
  lemma ExactAtomicity(c: Config)
    requires c.maxAttempts >= 1
    ensures c.atomicReclaim <==>
            forall s, actions :: Start(s) && Run(Steps(c), s, actions).Some? ==>
              MutualExclusion(Run(Steps(c), s, actions).value)
  {
    if c.atomicReclaim {
      forall s, actions | Start(s) && Run(Steps(c), s, actions).Some?
        ensures MutualExclusion(Run(Steps(c), s, actions).value)
      {
        RunKeeps(c, s, actions);
      }
    } else {
      var actions, r := ReclaimRace(c);
      assert Start(FOUR);
      assert !MutualExclusion(r);
    }
  }
}
