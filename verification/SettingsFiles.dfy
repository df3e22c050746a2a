/** updateSettings by one process alone, with the files it finds and a clock that its waits advance. */
module SettingsFiles {
  import opened Wrappers
  import opened SettingsLock

  const LOCK_RETRY_INTERVAL_MS := 100

  class SettingsDirectory {
    var now: int
    var lock: Option<int>
    var tmp: Content
    var settings: Content

    constructor (now: int, lock: Option<int>, tmp: Content, settings: Content)
      ensures this.now == now && this.lock == lock && this.tmp == tmp && this.settings == settings
    {
      this.now, this.lock, this.tmp, this.settings := now, lock, tmp, settings;
    }

    /**
     * A lock file left behind by a crashed holder blocks the call exactly when it is not stale by the
     * last attempt but one; the last wait can still remove it, too late for this call.
     */
    method UpdateSettings(updater: Settings -> Option<Settings>, load: Content -> Settings) returns (o: Outcome)
      modifies this
      ensures o == LockFailed <==> old(lock).Some? && old(now) + 4900 - old(lock).value <= STALE_LOCK_TIMEOUT_MS
      ensures o == LockFailed ==> settings == old(settings) && tmp == old(tmp)
      ensures o == LockFailed ==>
                lock == if old(now) + 5000 - old(lock).value > STALE_LOCK_TIMEOUT_MS then None else old(lock)
      ensures o != LockFailed ==> lock == None
      ensures o != LockFailed ==>
                match updater(load(old(settings)))
                case Some(u) => o == Updated(u) && settings == Stored(u)
                case None => o == Threw && settings == old(settings)
    {
      var attempts := 0;
      var acquired := false;
      while attempts < MAX_LOCK_ATTEMPTS
        invariant 0 <= attempts <= MAX_LOCK_ATTEMPTS && !acquired
        invariant now == old(now) + LOCK_RETRY_INTERVAL_MS * attempts
        invariant settings == old(settings) && tmp == old(tmp)
        invariant old(lock).None? ==> attempts == 0 && lock == None
        invariant old(lock).Some? ==>
                    lock == if attempts > 0 && now - old(lock).value > STALE_LOCK_TIMEOUT_MS then None else old(lock)
        invariant old(lock).Some? && attempts > 1 ==> now - LOCK_RETRY_INTERVAL_MS - old(lock).value <= STALE_LOCK_TIMEOUT_MS
      {
        if lock.None? {
          lock := Some(now);
          acquired := true;
          break;
        }
        attempts := attempts + 1;
        now := now + LOCK_RETRY_INTERVAL_MS;
        if lock.Some? && now - lock.value > STALE_LOCK_TIMEOUT_MS {
          lock := None;
        }
      }
      if !acquired {
        return LockFailed;
      }
      var current := load(settings);
      match updater(current) {
        case None =>
          o := Threw;
        case Some(updated) =>
          tmp := Stored(updated);
          settings := tmp;
          tmp := Missing;
          o := Updated(updated);
      }
      lock := None;
    }
  }
}
