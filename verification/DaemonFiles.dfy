/** The daemon's lock file and state file: what one process reads, checks and unlinks. */
module DaemonFiles {
  import opened Wrappers

  const MAX_SAFE_INTEGER := 9007199254740991

  /** The text of a lock file: a number, or anything `Number` does not read as one. */
  datatype Payload = Pid(n: int) | Unparsable

  /** The state file, as far as it matters here: the pid it records, or text that is not JSON. */
  datatype StateFile = Recorded(pid: int) | Corrupt

  /** A pid that a lock may name: a positive safe integer. */
  predicate IsPid(n: int) {
    0 < n <= MAX_SAFE_INTEGER
  }

  /** The liveness check: a payload that is no pid, or whose process is gone, is stale. */
  predicate Stale(payload: Payload, alive: set<int>) {
    payload.Unparsable? || !IsPid(payload.n) || payload.n !in alive
  }

  // ---------- The read-check-unlink blocks ----------

  /** After EEXIST: the lock file, and whether a stale one was unlinked. A vanished file cannot be unlinked. */
  function ReclaimBlock(lock: Option<Payload>, alive: set<int>): (Option<Payload>, bool) {
    if lock.Some? && Stale(lock.value, alive) then (None, true) else (lock, false)
  }

  /** The end of releaseDaemonLock: unlink the lock if it names this process. */
  function ReleaseBlock(lock: Option<Payload>, pid: int): Option<Payload> {
    if lock == Some(Pid(pid)) then None else lock
  }

  /** The first half of clearDaemonState: the state file, and whether the second half is reached. */
  function ClearStateBlock(state: Option<StateFile>, expected: Option<int>): (Option<StateFile>, bool) {
    if state.None? then (None, true)
    else if expected.None? then (None, true)
    else if state.value == Recorded(expected.value) then (None, true)
    else (state, false)
  }

  /** The second half: the lock file. */
  function ClearLockBlock(lock: Option<Payload>, expected: Option<int>): Option<Payload> {
    if lock.Some? && (expected.None? || lock.value == Pid(expected.value)) then None else lock
  }

  /** No release, and no clear with an expected pid, removes a lock or state file naming another process. */
  lemma OnlyOwnFilesRemoved(lock: Option<Payload>, state: Option<StateFile>, pid: int)
    ensures ReleaseBlock(lock, pid) != lock ==> lock == Some(Pid(pid))
    ensures ClearLockBlock(lock, Some(pid)) != lock ==> lock == Some(Pid(pid))
    ensures ClearStateBlock(state, Some(pid)).0 != state ==> state == Some(Recorded(pid))
    ensures state.Some? && !ClearStateBlock(state, Some(pid)).1 ==> state != Some(Recorded(pid))
  {
  }

  // ---------- One process alone ----------

  /** The two files, used by one process while the set of live processes stands still. */
  class Directory {
    var lock: Option<Payload>
    var state: Option<StateFile>

    constructor (lock: Option<Payload>, state: Option<StateFile>)
      ensures this.lock == lock && this.state == state
    {
      this.lock, this.state := lock, state;
    }

    /**
     * acquireDaemonLock without contenders. A free lock is taken at once; a stale one is unlinked and
     * taken at the second attempt, if there is one; a live one is left alone.
     */
    method AcquireDaemonLock(pid: int, alive: set<int>, maxAttempts: nat) returns (held: bool, attempts: nat)
      modifies this`lock
      ensures held <==>
              || (old(lock).None? && maxAttempts >= 1)
              || (old(lock).Some? && Stale(old(lock).value, alive) && maxAttempts >= 2)
      ensures held ==> lock == Some(Pid(pid)) && attempts <= 2
      ensures !held ==> lock == (if maxAttempts == 0 then old(lock) else ReclaimBlock(old(lock), alive).0)
      ensures attempts <= maxAttempts
      // A free lock is taken at the first attempt.
      ensures old(lock).None? ==> (held <==> maxAttempts >= 1) && (held ==> attempts == 1)
      // A lock naming a process that is alive is left alone, at every attempt.
      ensures old(lock).Some? && old(lock).value.Pid? && 0 < old(lock).value.n <= 9007199254740991
              && old(lock).value.n in alive ==>
                !held && lock == old(lock) && attempts == maxAttempts
      // A lock naming a process that is gone is reclaimed at the first attempt and taken at the second.
      ensures old(lock).Some? && old(lock).value.Pid? && 0 < old(lock).value.n <= 9007199254740991
              && old(lock).value.n !in alive ==>
                (held <==> maxAttempts >= 2) && (held ==> attempts == 2) && (maxAttempts == 1 ==> lock == None)
      // So is a lock that names no process.
      ensures old(lock).Some? && (old(lock).value.Pid? ==> !(0 < old(lock).value.n <= 9007199254740991)) ==>
                (held <==> maxAttempts >= 2) && (held ==> attempts == 2) && (maxAttempts == 1 ==> lock == None)
    {
      attempts := 0;
      while attempts < maxAttempts
        invariant attempts <= maxAttempts
        invariant attempts == 0 ==> lock == old(lock)
        invariant attempts > 0 && old(lock).Some? && Stale(old(lock).value, alive) ==> attempts == 1 && lock == None
        invariant attempts > 0 && !(old(lock).Some? && Stale(old(lock).value, alive)) ==> old(lock).Some? && lock == old(lock)
      {
        attempts := attempts + 1;
        if lock.None? {
          lock := Some(Pid(pid));
          return true, attempts;
        }
        var (after, reclaimed) := ReclaimBlock(lock, alive);
        lock := after;
        if reclaimed {
          continue;
        }
        if attempts == maxAttempts {
          return false, attempts;
        }
      }
      return false, attempts;
    }

    method ReleaseDaemonLock(pid: int)
      modifies this`lock
      ensures lock == (if old(lock) == Some(Pid(pid)) then None else old(lock))
    {
      if lock.Some? && lock.value == Pid(pid) {
        lock := None;
      }
    }

    /** Fails on a corrupt state file when a pid is expected, before anything is removed. */
    method ClearDaemonState(expected: Option<int>) returns (failed: bool)
      modifies this
      ensures failed <==> expected.Some? && old(state) == Some(Corrupt)
      ensures state == ClearStateBlock(old(state), expected).0
      ensures lock == if ClearStateBlock(old(state), expected).1 then ClearLockBlock(old(lock), expected) else old(lock)
      // Without an expected pid both files go.
      ensures expected.None? ==> state == None && lock == None
      // With one, a state file that does not record it stops the clear before anything is removed.
      ensures expected.Some? && old(state).Some? && old(state).value != Recorded(expected.value) ==>
                state == old(state) && lock == old(lock)
      // Otherwise the state file goes, and the lock if it names that pid.
      ensures expected.Some? && (old(state).None? || old(state).value == Recorded(expected.value)) ==>
                state == None && lock == if old(lock) == Some(Pid(expected.value)) then None else old(lock)
    {
      if state.Some? {
        if expected.Some? {
          if state.value.Corrupt? { return true; }
          if state.value.pid != expected.value { return false; }
        }
        state := None;
      }
      if lock.Some? {
        if expected.None? || lock.value == Pid(expected.value) {
          lock := None;
        }
      }
      return false;
    }
  }
}
