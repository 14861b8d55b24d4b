/** Runs of the disk cache: what holds after every sequence of calls. */
module CacheRuns {
  import opened CacheState

  /** A call with what it leaves open: the time, whether a file could be opened, what CheckLimit evicts, and which
      files cannot be deleted.  Data is a write to an open stream. */
  datatype Action =
    | Lock(id: string, now: int, victims: seq<string>, stuck: set<Key>)
    | Write(key: Key, opens: bool)
    | Data(handle: nat, size: nat)
    | Unlock(id: string, now: int, victims: seq<string>, stuck: set<Key>)
    | Read(key: Key, opens: bool)
    | Release(handle: nat, now: int, victims: seq<string>, stuck: set<Key>)
    | Delete(id: string, stuck: set<Key>)

  /** UnlockResource checks the limit if no stream is open. */
  predicate UnlockEvicts(s: State, id: string) {
    id in s.entries && s.entries[id].lockState == Locked && s.entries[id].accessors == 0
  }

  /** ReleaseResource checks the limit when it ends the unlocking of its entry. */
  predicate ReleaseEvicts(s: State, i: nat) {
    && i < |s.handles| && s.handles[i].key.id in s.entries
    && var e := s.entries[s.handles[i].key.id]; e.lockState == Unlocking && e.accessors == 1
  }

  ghost predicate LockEvicts(s: State, id: string, now: int) {
    CanLock(Created(s, id, now), id) && Overfull(s)
  }

  /** The callers keep to existing entries and to the streams they have. */
  ghost predicate Enabled(s: State, a: Action) {
    match a
    case Lock(id, now, victims, _) =>
      if LockEvicts(s, id, now) then Evictable(Created(s, id, now), victims) else victims == []
    case Write(key, _) => key.id in s.entries
    case Data(i, _) => i < |s.handles| && s.handles[i].writer
    case Unlock(id, now, victims, _) =>
      id in s.entries && if UnlockEvicts(s, id) then Evictable(UnlockedEntry(s, id, now), victims) else victims == []
    case Read(key, _) => key.id in s.entries
    case Release(i, now, victims, _) =>
      && i < |s.handles| && s.handles[i].key.id in s.entries && s.entries[s.handles[i].key.id].accessors > 0
      && if ReleaseEvicts(s, i) then Evictable(Released(s, i, now), victims) else victims == []
    case Delete(_, _) => true
  }

  predicate WriteOpens(s: State, key: Key, opens: bool) {
    key.id in s.entries && s.entries[key.id].lockState == Locked && opens
  }

  predicate ReadOpens(s: State, key: Key, opens: bool) {
    && key.id in s.entries && s.entries[key.id].lockState == Unlocked && key.index < s.entries[key.id].streams
    && key in s.files && opens
  }

  ghost function Apply(s: State, a: Action): State
    requires Enabled(s, a)
  {
    match a
    case Lock(id, now, victims, stuck) => LockOutcome(Created(s, id, now), id, victims, stuck).1
    case Write(key, opens) => if WriteOpens(s, key, opens) then WriterOpened(s, key) else s
    case Data(i, size) => s.(files := s.files[s.handles[i].key := size])
    case Unlock(id, now, victims, stuck) =>
      if s.entries[id].lockState != Locked then s else Leaving(s, Evicted(UnlockedEntry(s, id, now), victims), stuck)
    case Read(key, opens) => if ReadOpens(s, key, opens) then ReaderOpened(s, key) else s
    case Release(i, now, victims, stuck) => Leaving(s, Evicted(Released(s, i, now), victims), stuck)
    case Delete(id, stuck) => if IsIdle(s, id) then Leaving(s, Deleted(s, id), stuck) else s
  }

  /** The accounts are not about the files. */
  lemma LeavingKeeps(s: State, s': State, stuck: set<Key>)
    requires Accounts(s')
    ensures Accounts(Leaving(s, s', stuck))
  {
    OtherFilesKeep(s', Leaving(s, s', stuck).files);
  }

  lemma OtherFilesKeep(s: State, files: map<Key, nat>)
    requires Accounts(s)
    ensures Accounts(s.(files := files))
  {
    var s' := s.(files := files);
    forall i | 0 <= i < |s'.handles|
      ensures HandleOk(s', i)
    {
      assert HandleOk(s, i);
    }
    forall id | id in s'.entries
      ensures EntryOk(s', id)
    {
      assert EntryOk(s, id);
    }
  }

  lemma ApplyKeeps(s: State, a: Action)
    requires Accounts(s) && Enabled(s, a)
    ensures Accounts(Apply(s, a))
  {
    match a
    case Lock(id, now, victims, stuck) =>
      CreatedKeeps(s, id, now);
      LockKeeps(Created(s, id, now), id, victims, stuck);
    case Write(key, opens) =>
      if WriteOpens(s, key, opens) {
        OpenedKeeps(s, WriterOpened(s, key), Handle(key, true));
      }
    case Data(i, size) =>
      DataKeeps(s, s.handles[i].key, size);
    case Unlock(id, now, victims, stuck) =>
      if s.entries[id].lockState == Locked {
        UnlockedKeeps(s, id, now);
        EvictedKeeps(UnlockedEntry(s, id, now), victims);
        LeavingKeeps(s, Evicted(UnlockedEntry(s, id, now), victims), stuck);
      }
    case Read(key, opens) =>
      if ReadOpens(s, key, opens) {
        OpenedKeeps(s, ReaderOpened(s, key), Handle(key, false));
      }
    case Release(i, now, victims, stuck) =>
      ReleasedKeeps(s, i, now);
      EvictedKeeps(Released(s, i, now), victims);
      LeavingKeeps(s, Evicted(Released(s, i, now), victims), stuck);
    case Delete(id, stuck) =>
      if IsIdle(s, id) {
        DeletedKeeps(s, id);
        LeavingKeeps(s, Deleted(s, id), stuck);
      }
  }

  lemma UnlockedKeeps(s: State, id: string, now: int)
    requires Accounts(s) && id in s.entries && s.entries[id].lockState == Locked
    ensures Accounts(UnlockedEntry(s, id, now))
  {
    var e := s.entries[id];
    if e.accessors > 0 {
      LockStateKeeps(s, id, Unlocking, e.modified);
    } else {
      LockStateKeeps(s, id, Unlocked, now);
    }
  }

  lemma LockKeeps(s: State, id: string, victims: seq<string>, stuck: set<Key>)
    requires Accounts(s) && id in s.entries && Evictable(s, victims)
    ensures Accounts(LockOutcome(s, id, victims, stuck).1)
  {
    EvictedKeeps(s, victims);
    EvictionSpares(s, victims);
    var s' := Leaving(s, Evicted(s, victims), stuck);
    LeavingKeeps(s, Evicted(s, victims), stuck);
    if LockOutcome(s, id, victims, stuck).0 == Granted {
      LockStateKeeps(s', id, Locked, s'.entries[id].modified);
    }
  }

  lemma DataKeeps(s: State, key: Key, size: nat)
    requires Accounts(s)
    ensures Accounts(s.(files := s.files[key := size]))
  {
    OtherFilesKeep(s, s.files[key := size]);
  }

  ghost predicate CanRun(s: State, actions: seq<Action>)
    decreases |actions|
  {
    actions == [] || (Enabled(s, actions[0]) && CanRun(Apply(s, actions[0]), actions[1..]))
  }

  ghost function Run(s: State, actions: seq<Action>): State
    requires CanRun(s, actions)
    decreases |actions|
  {
    if actions == [] then s else Run(Apply(s, actions[0]), actions[1..])
  }

  /** After any calls the totals are the sums over the entries, the accessors of an entry are the streams open on it,
      readers are open only on unlocked entries and writers only on the others, and no open entry is missing. */
  lemma {:induction false} RunKeepsAccounts(s: State, actions: seq<Action>)
    requires Accounts(s) && CanRun(s, actions)
    ensures Accounts(Run(s, actions))
    ensures Run(s, actions).totalAccessors == Sum(Accessors(Run(s, actions).entries))
    decreases |actions|
  {
    if actions == [] {
      AccessorsTotal(s);
    } else {
      ApplyKeeps(s, actions[0]);
      RunKeepsAccounts(Apply(s, actions[0]), actions[1..]);
    }
  }

  lemma EmptyAccounts(maxCache: nat)
    ensures Accounts(Empty(maxCache))
  {
    assert Sizes(Empty(maxCache).entries) == map[];
  }

  /** The call itself ends the lock, or the last use, of entry `id`. */
  predicate Ends(s: State, a: Action, id: string) {
    match a
    case Unlock(i, _, _, _) => i == id && UnlockEvicts(s, id)
    case Release(h, _, _, _) => ReleaseEvicts(s, h) && s.handles[h].key.id == id
    case _ => false
  }

  /** No call removes an entry that is locked or open, except the one that ends the lock or closes the last stream. */
  lemma OnlyIdleRemoved(s: State, a: Action, id: string)
    requires Enabled(s, a) && id in s.entries && id !in Apply(s, a).entries
    ensures Idle(s.entries[id]) || Ends(s, a, id)
  {
    match a
    case Lock(i, now, victims, _) => EvictionSpares(Created(s, i, now), victims);
    case Write(_, _) =>
    case Data(_, _) =>
    case Unlock(i, now, victims, _) =>
      if s.entries[i].lockState == Locked {
        EvictionSpares(UnlockedEntry(s, i, now), victims);
      }
    case Read(_, _) =>
    case Release(i, now, victims, _) => EvictionSpares(Released(s, i, now), victims);
    case Delete(_, _) =>
  }
}
