/** DiskCache of diskcache.cc. */
module DiskCache {
  import opened CacheChoice
  import opened CacheRuns
  import opened CacheState
  import opened Wrappers

  class DiskCache {
    var entries: map<string, Entry>
    const maxCache: nat
    var totalSize: int
    var totalAccessors: int
    var handles: seq<Handle>         // the streams that callers have open
    var files: map<Key, nat>         // the sizes of the files on disk

    ghost function Now(): State
      reads this
    {
      State(entries, maxCache, totalSize, totalAccessors, handles, files)
    }

    ghost predicate Valid()
      reads this
    {
      Accounts(Now())
    }

    constructor (maxCache: nat)
      ensures Valid() && Now() == Empty(maxCache)
    {
      this.maxCache := maxCache;
      entries, totalSize, totalAccessors, handles, files := map[], 0, 0, [], map[];
      EmptyAccounts(maxCache);
    }

    method CreateEntry(id: string, now: int)
      modifies this`entries
      ensures Now() == Created(old(Now()), id, now)
    {
      if id !in entries {
        entries := entries[id := Entry(Unlocked, 0, 0, 0, now)];
      }
    }

    /** Removes an entry that is neither locked nor open, with its files but for those that cannot be deleted. */
    method DeleteResource(id: string, stuck: set<Key>) returns (ok: bool)
      requires Valid()
      modifies this`entries, this`totalSize, this`files
      ensures Valid()
      ensures ok == (id !in old(entries) || (IsIdle(old(Now()), id) && !HasStuck(old(Now()), id, stuck)))
      ensures Now() ==
        if IsIdle(old(Now()), id) then Leaving(old(Now()), Deleted(old(Now()), id), stuck) else old(Now())
    {
      if id !in entries {
        return true;
      }
      var entry := entries[id];
      if entry.lockState != Unlocked || entry.accessors > 0 {
        return false;
      }
      ghost var before := Now();
      DeletedKeeps(before, id);
      LeavingKeeps(before, Deleted(before, id), stuck);
      ok := DeleteFiles(id, entry.streams, stuck);
      FilesLeft(before, id, stuck);
      totalSize := totalSize - entry.size;
      entries := entries - {id};
    }

    method DeleteFiles(id: string, streams: nat, stuck: set<Key>) returns (success: bool)
      modifies this`files
      ensures files == map k | k in old(files) && !(k.id == id && k.index < streams && k !in stuck) :: old(files)[k]
      ensures success <==> forall k | k in stuck :: !(k in old(files) && k.id == id && k.index < streams)
    {
      success := true;
      var index := 0;
      while index < streams
        invariant index <= streams
        invariant files == map k | k in old(files) && !(k.id == id && k.index < index && k !in stuck) :: old(files)[k]
        invariant success <==> forall k | k in stuck :: !(k in old(files) && k.id == id && k.index < index)
      {
        var key := Key(id, index);
        if key in files {
          if key in stuck {
            success := false;
          } else {
            files := files - {key};
          }
        }
        index := index + 1;
      }
    }

    method FindIdle(order: seq<string>) returns (first: nat)
      requires forall k | k in order :: k in entries
      ensures first == FirstIdle(entries, order)
    {
      first := 0;
      while first < |order| && !Idle(entries[order[first]])
        invariant first <= |order| && FirstIdle(entries, order, first) == FirstIdle(entries, order)
      {
        first := first + 1;
      }
    }

    method FindOldest(order: seq<string>, first: nat) returns (oldest: nat)
      requires first + 1 < |order| && forall k | k in order :: k in entries
      ensures oldest == Scan(entries, order, first, first + 1)
    {
      oldest := first + 1;
      var it := first;
      while it < |order|
        invariant 0 <= it <= |order| && oldest < |order|
        invariant Scan(entries, order, it, oldest) == Scan(entries, order, first, first + 1)
      {
        if entries[order[it]].modified < entries[order[oldest]].modified {
          oldest := it;
        }
        it := it + 1;
      }
    }

    /** The entry that CheckLimit tries next. */
    method ChooseVictim() returns (choice: Choice)
      ensures choice == Choose(entries)
    {
      var order := Listing(entries.Keys);
      var first := FindIdle(order);
      if first == |order| {
        return Nobody;
      }
      if first + 1 == |order| {
        return PastEnd;
      }
      var oldest := FindOldest(order, first);
      return Tries(order[oldest]);
    }

    /** One round of CheckLimit: an eviction, or the reason for giving up. */
    method EvictOne(stuck: set<Key>, ghost start: State, ghost victims: seq<string>)
      returns (end: Option<LimitResult>, ghost victims': seq<string>)
      requires Valid() && totalSize > maxCache && Evicting(start, victims, Now(), stuck)
      modifies this`entries, this`totalSize, this`files
      ensures Valid() && Evictable(start, victims') && Now() == Leaving(start, Evicted(start, victims'), stuck)
      ensures end.Some? ==>
        && end.value != Within && LimitWith(start, stuck) == (end.value, victims')
        && (AnyStuck(start, victims', stuck) <==> end.value.NotDeleted?)
      ensures end.None? ==> Evicting(start, victims', Now(), stuck) && |entries| < |old(entries)|
    {
      var choice := ChooseVictim();
      GivesUp(start, victims, Now(), stuck);
      match choice
      case Nobody => return Some(AllBusy), victims;
      case PastEnd => return Some(OffTheMap), victims;
      case Tries(id) =>
        EvictingGoesOn(start, victims, Now(), id, stuck);
        var idle := Idle(entries[id]);
        var deleted := DeleteResource(id, stuck);
        if deleted {
          return None, victims + [id];
        }
        return Some(if idle then NotDeleted(id) else InUse(id)), if idle then victims + [id] else victims;
    }

    /** Evicts until the cache is within its limit, or gives up. */
    method CheckLimit(stuck: set<Key>) returns (result: LimitResult, ghost victims: seq<string>)
      requires Valid()
      modifies this`entries, this`totalSize, this`files
      ensures (result, victims) == LimitWith(old(Now()), stuck)
      ensures Valid() && Evictable(old(Now()), victims)
      ensures Now() == Leaving(old(Now()), Evicted(old(Now()), victims), stuck)
      ensures result == Within <==> totalSize <= maxCache && !AnyStuck(old(Now()), victims, stuck)
    {
      victims := [];
      ghost var start := Now();
      EvictingStarts(start, stuck);
      while totalSize > maxCache
        invariant Valid() && Evicting(start, victims, Now(), stuck)
        decreases |entries|
      {
        var end;
        end, victims := EvictOne(stuck, start, victims);
        if end.Some? {
          LimitOver(start, victims, stuck);
          return end.value, victims;
        }
      }
      GivesUp(start, victims, Now(), stuck);
      result := Within;
    }

    /** LockResource; EntryLost stands for the write into an erased entry. */
    method LockResource(id: string, now: int, stuck: set<Key>) returns (result: LockResult, ghost victims: seq<string>)
      requires Valid()
      modifies this
      ensures Valid() && Enabled(old(Now()), Lock(id, now, victims, stuck))
      ensures Now() == Apply(old(Now()), Lock(id, now, victims, stuck))
      ensures result == LockOutcome(Created(old(Now()), id, now), id, victims, stuck).0
      ensures LockEvicts(old(Now()), id, now) ==> victims == LimitWith(Created(old(Now()), id, now), stuck).1
    {
      CreatedKeeps(Now(), id, now);
      CreateEntry(id, now);
      result, victims := LockEntry(id, stuck);
    }

    /** CheckLimit, if it is needed. */
    method MakeRoom(stuck: set<Key>) returns (room: bool, ghost victims: seq<string>)
      requires Valid()
      modifies this`entries, this`totalSize, this`files
      ensures Valid() && Evictable(old(Now()), victims)
      ensures Now() == Leaving(old(Now()), Evicted(old(Now()), victims), stuck)
      ensures room == (totalSize <= maxCache && !AnyStuck(old(Now()), victims, stuck))
      ensures victims == if Overfull(old(Now())) then LimitWith(old(Now()), stuck).1 else []
    {
      room, victims := true, [];
      LeavingSame(Now(), Now(), stuck);
      if totalSize > maxCache {
        var limit;
        limit, victims := CheckLimit(stuck);
        room := limit == Within;
      }
    }

    /** LockResource after its entry has been found or created. */
    method LockEntry(id: string, stuck: set<Key>) returns (result: LockResult, ghost victims: seq<string>)
      requires Valid() && id in entries
      modifies this
      ensures Valid() && Evictable(old(Now()), victims)
      ensures (result, Now()) == LockOutcome(old(Now()), id, victims, stuck)
      ensures victims == if CanLock(old(Now()), id) && Overfull(old(Now())) then LimitWith(old(Now()), stuck).1 else []
    {
      victims := [];
      ghost var start := Now();
      LeavingSame(start, start, stuck);
      var entry := entries[id];
      if entry.lockState == Locked {
        return Refused, victims;
      }
      if entry.lockState == Unlocked && entry.accessors > 0 {
        return Refused, victims;
      }
      var room;
      room, victims := MakeRoom(stuck);
      if !room {
        return Refused, victims;
      }
      result := Grant(id, start, victims, stuck);
    }

    /** LockResource once there is room. */
    method Grant(id: string, ghost start: State, ghost victims: seq<string>, ghost stuck: set<Key>)
      returns (result: LockResult)
      requires Accounts(start) && id in start.entries && CanLock(start, id) && Evictable(start, victims)
      requires Now() == Leaving(start, Evicted(start, victims), stuck)
      requires totalSize <= maxCache && !AnyStuck(start, victims, stuck)
      modifies this`entries
      ensures Valid() && (result, Now()) == LockOutcome(start, id, victims, stuck)
    {
      LockKeeps(start, id, victims, stuck);
      if id !in entries {
        return EntryLost;
      }
      entries := entries[id := entries[id].(lockState := Locked)];
      result := Granted;
    }

    /** A stream for writing, if the entry is locked and the file can be opened, as `opens` says. */
    method WriteResource(id: string, index: nat, opens: bool) returns (ok: bool)
      requires Valid() && id in entries
      modifies this
      ensures Valid() && ok == WriteOpens(old(Now()), Key(id, index), opens)
      ensures Now() == Apply(old(Now()), Write(Key(id, index), opens))
    {
      var key, entry := Key(id, index), entries[id];
      ghost var before := Now();
      if entry.lockState != Locked || !opens {
        return false;
      }
      var previousSize := if key in files then files[key] else 0;
      if previousSize > entry.size {
        previousSize := entry.size;
      }
      files := files[key := 0];
      var streams := if entry.streams > index then entry.streams else index + 1;
      entries := entries[id := entry.(streams := streams, size := entry.size - previousSize,
                                      accessors := entry.accessors + 1)];
      totalSize := totalSize - previousSize;
      totalAccessors := totalAccessors + 1;
      handles := handles + [Handle(key, true)];
      OpenedKeeps(before, Now(), Handle(key, true));
      return true;
    }

    /** The caller writes to a stream that it has open. */
    method WriteData(i: nat, size: nat)
      requires Valid() && i < |handles| && handles[i].writer
      modifies this`files
      ensures Valid() && Now() == Apply(old(Now()), Data(i, size))
    {
      DataKeeps(Now(), handles[i].key, size);
      files := files[handles[i].key := size];
    }

    method UnlockResource(id: string, now: int, stuck: set<Key>) returns (ok: bool, ghost victims: seq<string>)
      requires Valid() && id in entries
      modifies this
      ensures Valid() && ok == (old(entries)[id].lockState == Locked)
      ensures Enabled(old(Now()), Unlock(id, now, victims, stuck))
      ensures Now() == Apply(old(Now()), Unlock(id, now, victims, stuck))
      ensures UnlockEvicts(old(Now()), id) ==> victims == LimitWith(UnlockedEntry(old(Now()), id, now), stuck).1
    {
      victims := [];
      var entry := entries[id];
      if entry.lockState != Locked {
        return false, victims;
      }
      UnlockedKeeps(Now(), id, now);
      LeavingSame(Now(), UnlockedEntry(Now(), id, now), stuck);
      if entry.accessors > 0 {
        entries := entries[id := entry.(lockState := Unlocking)];
      } else {
        entries := entries[id := entry.(lockState := Unlocked, modified := now)];
        var limit;
        limit, victims := CheckLimit(stuck);
      }
      ok := true;
    }

    /** A stream for reading, if the entry is unlocked and has such a file that can be opened, as `opens` says. */
    method ReadResource(id: string, index: nat, opens: bool) returns (ok: bool)
      requires Valid() && id in entries
      modifies this
      ensures Valid() && ok == ReadOpens(old(Now()), Key(id, index), opens)
      ensures Now() == Apply(old(Now()), Read(Key(id, index), opens))
    {
      var key, entry := Key(id, index), entries[id];
      ghost var before := Now();
      if entry.lockState != Unlocked || index >= entry.streams || key !in files || !opens {
        return false;
      }
      entries := entries[id := entry.(accessors := entry.accessors + 1)];
      totalAccessors := totalAccessors + 1;
      handles := handles + [Handle(key, false)];
      OpenedKeeps(before, Now(), Handle(key, false));
      return true;
    }

    /** A caller closes a stream: ~DiskCacheAdapter and ReleaseResource. */
    method ReleaseResource(i: nat, now: int, stuck: set<Key>) returns (ghost victims: seq<string>)
      requires Valid() && i < |handles|
      modifies this
      ensures Valid() && Enabled(old(Now()), Release(i, now, victims, stuck))
      ensures Now() == Apply(old(Now()), Release(i, now, victims, stuck))
      ensures ReleaseEvicts(old(Now()), i) ==> victims == LimitWith(Released(old(Now()), i, now), stuck).1
    {
      victims := [];
      ReleasableHandle(Now(), i);
      LeavingSame(Now(), Released(Now(), i, now), stuck);
      var check := CountClosed(i, now);
      if check {
        var limit;
        limit, victims := CheckLimit(stuck);
      }
    }

    /** The accounts after a stream has been closed, and whether that ended the unlocking of its entry. */
    method CountClosed(i: nat, now: int) returns (check: bool)
      requires Valid() && i < |handles|
      modifies this
      ensures Valid() && check == ReleaseEvicts(old(Now()), i)
      ensures old(handles[i].key.id in entries && entries[handles[i].key.id].accessors > 0)
      ensures Now() == Released(old(Now()), i, now)
    {
      ghost var start := Now();
      ReleasedKeeps(start, i, now);
      var key := handles[i].key;
      totalAccessors := totalAccessors - 1;
      handles := Dropped(handles, i);
      check := CountOff(key, now);
    }

    /** The entry's part of that. */
    method CountOff(key: Key, now: int) returns (check: bool)
      requires key.id in entries && entries[key.id].accessors > 0
      modifies this`entries, this`totalSize
      ensures check == (old(entries)[key.id].lockState == Unlocking && old(entries)[key.id].accessors == 1)
      ensures entries == old(entries)[key.id := ClosedEntry(old(entries)[key.id], Grown(old(Now()), key), now)]
      ensures totalSize == old(totalSize) + Grown(old(Now()), key)
    {
      var entry := entries[key.id];
      entry := entry.(accessors := entry.accessors - 1);
      check := false;
      if entry.lockState != Unlocked {
        var newSize := if key in files then files[key] else 0;
        entry := entry.(size := entry.size + newSize);
        totalSize := totalSize + newSize;
        if entry.lockState == Unlocking && entry.accessors == 0 {
          entry := entry.(lockState := Unlocked, modified := now);
          check := true;
        }
      }
      entries := entries[key.id := entry];
    }
  }

  lemma FilesLeft(s: State, id: string, stuck: set<Key>)
    requires id in s.entries
    ensures Leaving(s, Deleted(s, id), stuck).files ==
      map k | k in s.files && !(k.id == id && k.index < s.entries[id].streams && k !in stuck) :: s.files[k]
  {
  }

  lemma LimitOver(s: State, victims: seq<string>, stuck: set<Key>)
    requires LimitWith(s, stuck).1 == victims && LimitWith(s, stuck).0 != Within && Evictable(s, victims)
    ensures Overfull(Evicted(s, victims)) || LimitWith(s, stuck).0.NotDeleted?
    decreases |victims|
  {
    if victims != [] {
      var id := Choose(s.entries).id;
      ChoiceIsOldest(s.entries);
      if !HasStuck(s, id, stuck) {
        LimitOver(Deleted(s, id), victims[1..], stuck);
      }
    }
  }
}
