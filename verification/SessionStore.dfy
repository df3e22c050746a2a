/** The persisted session store, pruned of old records whenever it is read. */
module SessionStore {
  import opened Wrappers

  const SESSION_MAX_AGE_MS: int := 14 * 24 * 60 * 60 * 1000

  /** A persisted session: when it says it was saved, and the rest. */
  datatype Session = Session(savedAt: int, data: string)

  type Sessions = map<string, Session>

  datatype StoreFile = Absent | Corrupt | Store(sessions: Sessions)

  /** What a file that cannot be read counts as. */
  function Contents(f: StoreFile): Sessions {
    if f.Store? then f.sessions else map[]
  }

  /** The sessions younger than 14 days at time `now`. */
  function Fresh(m: Sessions, now: int): Sessions {
    map id | id in m && now - m[id].savedAt < SESSION_MAX_AGE_MS :: m[id]
  }

  class PersistedSessions {
    var file: StoreFile

    /** All sessions ever persisted, the last one for each id, and the latest clock a persist has seen. */
    ghost var unpruned: Sessions
    ghost var latest: int

    /** From the latest persist on, a read cannot tell the pruned store from the unpruned one. */
    ghost predicate Valid()
      reads this
    {
      forall t {:trigger Fresh(unpruned, t)} :: latest <= t ==> Fresh(Contents(file), t) == Fresh(unpruned, t)
    }

    constructor (file: StoreFile, now: int)
      ensures Valid() && this.file == file && unpruned == Contents(file) && latest == now
    {
      this.file := file;
      unpruned := Contents(file);
      latest := now;
    }

    method ReadPersistedSessions(now: int) returns (sessions: Sessions)
      requires Valid()
      ensures sessions == Fresh(Contents(file), now)
      ensures latest <= now ==> sessions == Fresh(unpruned, now)
      ensures !file.Store? ==> sessions == map[]
      ensures file.Store? ==>
                forall id :: id in sessions <==> id in file.sessions && now - file.sessions[id].savedAt < 1209600000
      ensures file.Store? ==> forall id :: id in sessions && id in file.sessions ==> sessions[id] == file.sessions[id]
    {
      if !file.Store? {
        return map[];
      }
      var data := file.sessions;
      sessions := map[];
      var rest := data.Keys;
      while rest != {}
        invariant rest <= data.Keys
        invariant sessions == Fresh(map id | id in data && id !in rest :: data[id], now)
      {
        var id :| id in rest;
        if now - data[id].savedAt < SESSION_MAX_AGE_MS {
          sessions := sessions[id := data[id]];
        }
        rest := rest - {id};
      }
    }

    /** `writeFails`: the temporary file or its rename fails, which is only logged. */
    method PersistSession(id: string, session: Session, now: int, writeFails: bool)
      requires Valid()
      modifies this
      ensures Valid()
      ensures writeFails ==> file == old(file) && unpruned == old(unpruned) && latest == old(latest)
      ensures !writeFails ==>
                && file == Store(Fresh(Contents(old(file)), now)[id := session])
                && unpruned == old(unpruned)[id := session]
                && latest == if old(latest) <= now then now else old(latest)
    {
      var existing := ReadPersistedSessions(now);
      existing := existing[id := session];
      if !writeFails {
        PruneThenAdd(Contents(file), unpruned, latest, id, session, now);
        file := Store(existing);
        unpruned := unpruned[id := session];
        latest := if latest <= now then now else latest;
      }
    }
  }

  /** Pruning at `now` drops nothing that a read at `now` or later would have shown. */
  lemma PruneThenAdd(m: Sessions, full: Sessions, latest: int, id: string, session: Session, now: int)
    requires forall t {:trigger Fresh(full, t)} :: latest <= t ==> Fresh(m, t) == Fresh(full, t)
    ensures forall t {:trigger Fresh(full[id := session], t)} :: latest <= t && now <= t ==>
              Fresh(Fresh(m, now)[id := session], t) == Fresh(full[id := session], t)
  {
    forall t {:trigger Fresh(full[id := session], t)} | latest <= t && now <= t
      ensures Fresh(Fresh(m, now)[id := session], t) == Fresh(full[id := session], t)
    {
      PruneAt(m, full, id, session, now, t);
    }
  }

  lemma PruneAt(m: Sessions, full: Sessions, id: string, session: Session, now: int, t: int)
    requires now <= t && Fresh(m, t) == Fresh(full, t)
    ensures Fresh(Fresh(m, now)[id := session], t) == Fresh(full[id := session], t)
  {
    var a, b := Fresh(Fresh(m, now)[id := session], t), Fresh(full[id := session], t);
    forall k ensures (k in a <==> k in b) && (k in a ==> a[k] == b[k]) {
      assert k in Fresh(m, t) <==> k in Fresh(full, t);
      assert k in Fresh(m, t) ==> Fresh(m, t)[k] == Fresh(full, t)[k];
    }
  }

  // ---------- Whole histories ----------

  /** One call of persistSession, with the clock it reads. */
  datatype Persist = Persist(at: int, id: string, session: Session)

  function Pruned(m: Sessions, ops: seq<Persist>): Sessions {
    if ops == [] then m
    else
      var op := ops[|ops| - 1];
      Fresh(Pruned(m, ops[..|ops| - 1]), op.at)[op.id := op.session]
  }

  function Unpruned(m: Sessions, ops: seq<Persist>): Sessions {
    if ops == [] then m
    else
      var op := ops[|ops| - 1];
      Unpruned(m, ops[..|ops| - 1])[op.id := op.session]
  }

  predicate HasTimes(ops: seq<Persist>, times: seq<int>) {
    |ops| == |times| && forall i :: 0 <= i < |ops| ==> ops[i].at == times[i]
  }

  lemma {:induction false} PruningInvisible(m: Sessions, ops: seq<Persist>, now: int)
    requires forall i :: 0 <= i < |ops| ==> ops[i].at <= now
    ensures Fresh(Pruned(m, ops), now) == Fresh(Unpruned(m, ops), now)
  {
    if ops != [] {
      var n := |ops| - 1;
      PruningInvisible(m, ops[..n], now);
      PruneAt(Pruned(m, ops[..n]), Unpruned(m, ops[..n]), ops[n].id, ops[n].session, ops[n].at, now);
    }
  }

  /** A session that is not persisted again is kept until the first persist that finds it too old. */
  lemma {:induction false} KeptWhileFresh(m: Sessions, ops: seq<Persist>, id: string)
    requires id in m && forall i :: 0 <= i < |ops| ==> ops[i].id != id
    ensures id in Pruned(m, ops) <==> forall i :: 0 <= i < |ops| ==> ops[i].at - m[id].savedAt < SESSION_MAX_AGE_MS
    ensures id in Pruned(m, ops) ==> Pruned(m, ops)[id] == m[id]
    ensures id in Unpruned(m, ops) && Unpruned(m, ops)[id] == m[id]
  {
    if ops != [] {
      KeptWhileFresh(m, ops[..|ops| - 1], id);
      assert forall i :: 0 <= i < |ops| - 1 ==> ops[..|ops| - 1][i] == ops[i];
    }
  }

  /**
   * Exactly which clocks make pruning invisible: whatever the store held and whatever was persisted, a
   * read shows what an unpruned store would show, if and only if no persist's clock is ahead of the read's.
   */
  lemma ExactClocks(times: seq<int>, now: int)
    ensures (forall i :: 0 <= i < |times| ==> times[i] <= now) <==>
            forall m, ops :: HasTimes(ops, times) ==> Fresh(Pruned(m, ops), now) == Fresh(Unpruned(m, ops), now)
  {
    if forall i :: 0 <= i < |times| ==> times[i] <= now {
      forall m, ops | HasTimes(ops, times)
        ensures Fresh(Pruned(m, ops), now) == Fresh(Unpruned(m, ops), now)
      {
        PruningInvisible(m, ops, now);
      }
    } else {
      var i :| 0 <= i < |times| && times[i] > now;
      var aged := Session(now - SESSION_MAX_AGE_MS + 1, "old");
      var m := map["old" := aged];
      var ops := seq(|times|, j requires 0 <= j < |times| => Persist(times[j], "new", Session(times[j], "new")));
      KeptWhileFresh(m, ops, "old");
      assert HasTimes(ops, times);
      assert ops[i].at - aged.savedAt >= SESSION_MAX_AGE_MS;
      assert "old" in Fresh(Unpruned(m, ops), now) && "old" !in Fresh(Pruned(m, ops), now);
    }
  }
}
