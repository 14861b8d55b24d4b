/** What single calls of the disk cache come to, told from the streams that are open. */
module CacheCalls {
  import opened CacheRuns
  import opened CacheState

  /** A stream of the entry is open. */
  predicate Open(s: State, id: string) {
    exists i | 0 <= i < |s.handles| :: s.handles[i].key.id == id
  }

  /** No other stream of its entry is open. */
  predicate LastOpen(s: State, i: nat)
    requires i < |s.handles|
  {
    forall j | 0 <= j < |s.handles| && j != i :: s.handles[j].key.id != s.handles[i].key.id
  }

  lemma OpenIs(s: State, id: string)
    requires Accounts(s) && id in s.entries
    ensures Open(s, id) <==> s.entries[id].accessors > 0
  {
    assert EntryOk(s, id);
    CountNone(s.handles, id);
  }

  lemma LastOpenIs(s: State, i: nat)
    requires Accounts(s) && i < |s.handles| && s.handles[i].key.id in s.entries
    ensures LastOpen(s, i) <==> s.entries[s.handles[i].key.id].accessors == 1
  {
    var id, rest := s.handles[i].key.id, Dropped(s.handles, i);
    assert EntryOk(s, id);
    CountDrop(s.handles, i, id);
    CountNone(rest, id);
    assert forall j | 0 <= j < |rest| :: rest[j] == s.handles[if j < i then j else j + 1];
    if forall j | 0 <= j < |rest| :: rest[j].key.id != id {
      forall j | 0 <= j < |s.handles| && j != i
        ensures s.handles[j].key.id != id
      {
        assert s.handles[j] == rest[if j < i then j else j - 1];
      }
    }
  }

  /** The lock of an entry after a call: UnlockResource ends it, at once or, while streams are open, with the last of
      them; LockResource takes it if it is granted; no other call does anything to it. */
  ghost function LockAfter(s: State, a: Action, id: string): LockState
    requires Enabled(s, a) && id in s.entries
  {
    var lock := s.entries[id].lockState;
    match a
    case Lock(i, now, victims, stuck) =>
      if i == id && LockOutcome(Created(s, i, now), i, victims, stuck).0 == Granted then Locked else lock
    case Unlock(i, _, _, _) => if i == id && lock == Locked then if Open(s, id) then Unlocking else Unlocked else lock
    case Release(i, _, _, _) =>
      if s.handles[i].key.id == id && lock == Unlocking && LastOpen(s, i) then Unlocked else lock
    case _ => lock
  }

  lemma CleanedUp(s: State, victims: seq<string>, stuck: set<Key>, id: string)
    requires Evictable(s, victims) && id in Leaving(s, Evicted(s, victims), stuck).entries
    ensures id in s.entries && Leaving(s, Evicted(s, victims), stuck).entries[id] == s.entries[id]
  {
    EvictionSpares(s, victims);
  }

  lemma LockedBy(s: State, i: string, now: int, victims: seq<string>, stuck: set<Key>, id: string)
    requires Enabled(s, Lock(i, now, victims, stuck)) && id in s.entries
    requires id in Apply(s, Lock(i, now, victims, stuck)).entries
    ensures Apply(s, Lock(i, now, victims, stuck)).entries[id].lockState ==
            LockAfter(s, Lock(i, now, victims, stuck), id)
  {
    CleanedUp(Created(s, i, now), victims, stuck, id);
  }

  lemma UnlockedBy(s: State, i: string, now: int, victims: seq<string>, stuck: set<Key>, id: string)
    requires Accounts(s) && Enabled(s, Unlock(i, now, victims, stuck)) && id in s.entries
    requires id in Apply(s, Unlock(i, now, victims, stuck)).entries
    ensures Apply(s, Unlock(i, now, victims, stuck)).entries[id].lockState ==
            LockAfter(s, Unlock(i, now, victims, stuck), id)
  {
    if s.entries[i].lockState == Locked {
      OpenIs(s, i);
      CleanedUp(UnlockedEntry(s, i, now), victims, stuck, id);
    }
  }

  lemma ReleasedBy(s: State, i: nat, now: int, victims: seq<string>, stuck: set<Key>, id: string)
    requires Accounts(s) && Enabled(s, Release(i, now, victims, stuck)) && id in s.entries
    requires id in Apply(s, Release(i, now, victims, stuck)).entries
    ensures Apply(s, Release(i, now, victims, stuck)).entries[id].lockState ==
            LockAfter(s, Release(i, now, victims, stuck), id)
  {
    LastOpenIs(s, i);
    CleanedUp(Released(s, i, now), victims, stuck, id);
  }

  lemma LockStateIs(s: State, a: Action, id: string)
    requires Accounts(s) && Enabled(s, a) && id in s.entries && id in Apply(s, a).entries
    ensures Apply(s, a).entries[id].lockState == LockAfter(s, a, id)
  {
    match a
    case Lock(i, now, victims, stuck) => LockedBy(s, i, now, victims, stuck, id);
    case Write(_, _) =>
    case Data(_, _) =>
    case Unlock(i, now, victims, stuck) => UnlockedBy(s, i, now, victims, stuck, id);
    case Read(_, _) =>
    case Release(i, now, victims, stuck) => ReleasedBy(s, i, now, victims, stuck, id);
    case Delete(_, _) =>
  }

  /** DeleteResource removes an entry that is neither locked nor open, what it has counted for it, and those of its
      files that can be deleted; of everything else it changes nothing. */
  lemma DeletedExactly(s: State, id: string, stuck: set<Key>)
    requires Accounts(s)
    ensures var s' := Apply(s, Delete(id, stuck));
      if id !in s.entries || s.entries[id].lockState != Unlocked || Open(s, id) then s' == s else
        && s'.entries == s.entries - {id} && s'.totalSize == s.totalSize - s.entries[id].size
        && s'.maxCache == s.maxCache && s'.handles == s.handles && s'.totalAccessors == s.totalAccessors
        && (forall k | k in s'.files :: k in s.files && s'.files[k] == s.files[k])
        && (forall k | k in s.files ::
              k in s'.files <==> k.id != id || k.index >= s.entries[id].streams || k in stuck)
  {
    if id in s.entries {
      OpenIs(s, id);
    }
  }
}
