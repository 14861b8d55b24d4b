/** The disk cache of diskcache.cc as values: its entries, the streams open on them, and the files on disk. */
module CacheState {

  // ----- Sums over maps -----

  ghost function Sum(m: map<string, nat>): nat
    decreases |m|
  {
    if m == map[] then 0 else
      var k :| k in m;
      m[k] + Sum(m - {k})
  }

  lemma {:induction false} SumRemove(m: map<string, nat>, k: string)
    requires k in m
    ensures Sum(m) == m[k] + Sum(m - {k})
    decreases |m|
  {
    var j :| j in m && Sum(m) == m[j] + Sum(m - {j});
    if j != k {
      SumRemove(m - {j}, k);
      SumRemove(m - {k}, j);
      assert m - {j} - {k} == m - {k} - {j};
    }
  }

  lemma SumPut(m: map<string, nat>, k: string, v: nat)
    ensures Sum(m[k := v]) == v + Sum(m - {k})
  {
    SumRemove(m[k := v], k);
    assert m[k := v] - {k} == m - {k};
  }

  // ----- The state -----

  datatype LockState = Unlocked | Locked | Unlocking

  datatype Entry = Entry(lockState: LockState, accessors: nat, size: nat, streams: nat, modified: int)

  datatype Key = Key(id: string, index: nat)

  /** A DiskCacheAdapter: an open stream. */
  datatype Handle = Handle(key: Key, writer: bool)

  datatype State = State(entries: map<string, Entry>, maxCache: nat, totalSize: int, totalAccessors: int,
                         handles: seq<Handle>, files: map<Key, nat>)

  function Empty(maxCache: nat): State {
    State(map[], maxCache, 0, 0, [], map[])
  }

  function FileSize(s: State, key: Key): nat {
    if key in s.files then s.files[key] else 0
  }

  predicate Idle(e: Entry) {
    e.lockState == Unlocked && e.accessors == 0
  }

  predicate IsIdle(s: State, id: string) {
    id in s.entries && Idle(s.entries[id])
  }

  predicate Overfull(s: State) {
    s.totalSize > s.maxCache
  }

  // ----- What the operations do -----

  function Created(s: State, id: string, now: int): State {
    if id in s.entries then s else s.(entries := s.entries[id := Entry(Unlocked, 0, 0, 0, now)])
  }

  function WithEntry(s: State, id: string, e: Entry): State {
    s.(entries := s.entries[id := e])
  }

  /** A file of the entry cannot be deleted, because it is one of `stuck`. */
  ghost predicate HasStuck(s: State, id: string, stuck: set<Key>) {
    id in s.entries && exists key | key in stuck :: key in s.files && key.id == id && key.index < s.entries[id].streams
  }

  function StuckFiles(files: map<Key, nat>, stuck: set<Key>): map<Key, nat> {
    map k | k in files && k in stuck :: files[k]
  }

  /** From `s` to `s'` files have been deleted; those that are `stuck` are still there. */
  function Leaving(s: State, s': State, stuck: set<Key>): State {
    s'.(files := s'.files + StuckFiles(s.files, stuck))
  }

  /** DeleteResource of an idle entry: its files go, too, if they can be deleted. */
  function Deleted(s: State, id: string): State
    requires id in s.entries
  {
    s.(entries := s.entries - {id}, totalSize := s.totalSize - s.entries[id].size,
       files := map k | k in s.files && !(k.id == id && k.index < s.entries[id].streams) :: s.files[k])
  }

  /** CheckLimit has deleted `victims`, one after the other: each is idle when its turn comes, and was needed. */
  ghost predicate Evictable(s: State, victims: seq<string>)
    decreases |victims|
  {
    victims == [] || (Overfull(s) && IsIdle(s, victims[0]) && Evictable(Deleted(s, victims[0]), victims[1..]))
  }

  ghost function Evicted(s: State, victims: seq<string>): State
    requires Evictable(s, victims)
    decreases |victims|
  {
    if victims == [] then s else Evicted(Deleted(s, victims[0]), victims[1..])
  }

  predicate CanLock(s: State, id: string)
    requires id in s.entries
  {
    s.entries[id].lockState == Unlocking || IsIdle(s, id)
  }

  /** One of the evicted entries had a file that is stuck: CheckLimit gives up there. */
  ghost predicate AnyStuck(s: State, victims: seq<string>, stuck: set<Key>) {
    exists v | v in victims :: HasStuck(s, v, stuck)
  }

  datatype LockResult = Refused | Granted | EntryLost

  /** LockResource after its entry has been found or created.  If CheckLimit evicts that very entry, the source goes on
      to write into the erased entry; here the entry is lost. */
  ghost function LockOutcome(s: State, id: string, victims: seq<string>, stuck: set<Key>): (LockResult, State)
    requires id in s.entries && Evictable(s, victims)
  {
    var s' := Leaving(s, Evicted(s, victims), stuck);
    if !CanLock(s, id) || Overfull(s') || AnyStuck(s, victims, stuck) then (Refused, s')
    else if id !in s'.entries then (EntryLost, s')
    else (Granted, WithEntry(s', id, s'.entries[id].(lockState := Locked)))
  }

  predicate Writing(s: State, key: Key) {
    exists i | 0 <= i < |s.handles| :: s.handles[i] == Handle(key, true)
  }

  /** A writer has opened stream `key`, which truncates its file; what it held no longer counts. */
  function WriterOpened(s: State, key: Key): State
    requires key.id in s.entries
  {
    var e := s.entries[key.id];
    var previous := if FileSize(s, key) > e.size then e.size else FileSize(s, key);
    var e' := e.(streams := if e.streams > key.index then e.streams else key.index + 1, size := e.size - previous,
                 accessors := e.accessors + 1);
    WithEntry(s, key.id, e').(totalSize := s.totalSize - previous, totalAccessors := s.totalAccessors + 1,
                              handles := s.handles + [Handle(key, true)], files := s.files[key := 0])
  }

  function ReaderOpened(s: State, key: Key): State
    requires key.id in s.entries
  {
    var e := s.entries[key.id];
    WithEntry(s, key.id, e.(accessors := e.accessors + 1)).(
      totalAccessors := s.totalAccessors + 1, handles := s.handles + [Handle(key, false)])
  }

  function Dropped<T>(a: seq<T>, i: nat): seq<T>
    requires i < |a|
  {
    a[..i] + a[i + 1..]
  }

  /** What closing a stream adds to the size of its entry. */
  function Grown(s: State, key: Key): nat
    requires key.id in s.entries
  {
    if s.entries[key.id].lockState == Unlocked then 0 else FileSize(s, key)
  }

  function ClosedEntry(e: Entry, grown: nat, now: int): Entry
    requires e.accessors > 0
  {
    var ends := e.lockState == Unlocking && e.accessors == 1;
    e.(accessors := e.accessors - 1, size := e.size + grown,
       lockState := if ends then Unlocked else e.lockState, modified := if ends then now else e.modified)
  }

  /** Stream `i` has been closed and released, without the check of the limit that may follow. */
  function Released(s: State, i: nat, now: int): State
    requires i < |s.handles| && s.handles[i].key.id in s.entries && s.entries[s.handles[i].key.id].accessors > 0
  {
    var key := s.handles[i].key;
    WithEntry(s, key.id, ClosedEntry(s.entries[key.id], Grown(s, key), now)).(
      totalSize := s.totalSize + Grown(s, key), totalAccessors := s.totalAccessors - 1,
      handles := Dropped(s.handles, i))
  }

  /** UnlockResource of a locked entry, without the check of the limit that may follow. */
  function UnlockedEntry(s: State, id: string, now: int): State
    requires id in s.entries
  {
    var e := s.entries[id];
    WithEntry(s, id, if e.accessors > 0 then e.(lockState := Unlocking)
                     else e.(lockState := Unlocked, modified := now))
  }

  // ----- The accounts -----

  function Sizes(entries: map<string, Entry>): map<string, nat> {
    map id | id in entries :: entries[id].size
  }

  function Count(handles: seq<Handle>, id: string): nat {
    if handles == [] then 0
    else Count(handles[..|handles| - 1], id) + if handles[|handles| - 1].key.id == id then 1 else 0
  }

  ghost predicate EntryOk(s: State, id: string)
    requires id in s.entries
  {
    && s.entries[id].accessors == Count(s.handles, id)
    && (s.entries[id].lockState == Unlocking ==> s.entries[id].accessors > 0)
  }

  /** Readers only on unlocked entries, writers only on the others, and never a stream without its entry. */
  ghost predicate HandleOk(s: State, i: nat)
    requires i < |s.handles|
  {
    var h := s.handles[i];
    h.key.id in s.entries && (h.writer <==> s.entries[h.key.id].lockState != Unlocked)
  }

  ghost predicate Accounts(s: State) {
    && s.totalSize == Sum(Sizes(s.entries)) && s.totalAccessors == |s.handles|
    && (forall id | id in s.entries :: EntryOk(s, id))
    && (forall i | 0 <= i < |s.handles| :: HandleOk(s, i))
  }

  lemma SizesPut(entries: map<string, Entry>, id: string, e: Entry)
    ensures Sum(Sizes(entries[id := e])) == Sum(Sizes(entries)) + e.size - if id in entries then entries[id].size else 0
  {
    assert Sizes(entries[id := e]) == Sizes(entries)[id := e.size];
    SumPut(Sizes(entries), id, e.size);
    if id in entries {
      SumRemove(Sizes(entries), id);
    } else {
      assert Sizes(entries) - {id} == Sizes(entries);
    }
  }

  lemma SizesRemove(entries: map<string, Entry>, id: string)
    requires id in entries
    ensures Sum(Sizes(entries - {id})) == Sum(Sizes(entries)) - entries[id].size
  {
    assert Sizes(entries - {id}) == Sizes(entries) - {id};
    SumRemove(Sizes(entries), id);
  }

  lemma CountAdd(handles: seq<Handle>, h: Handle, id: string)
    ensures Count(handles + [h], id) == Count(handles, id) + if h.key.id == id then 1 else 0
  {
    assert (handles + [h])[..|handles|] == handles;
  }

  lemma {:induction false} CountDrop(handles: seq<Handle>, i: nat, id: string)
    requires i < |handles|
    ensures Count(Dropped(handles, i), id) == Count(handles, id) - if handles[i].key.id == id then 1 else 0
    decreases |handles|
  {
    var last := |handles| - 1;
    if i == last {
      assert Dropped(handles, i) == handles[..last];
    } else {
      CountDrop(handles[..last], i, id);
      assert Dropped(handles, i) == Dropped(handles[..last], i) + [handles[last]];
      CountAdd(Dropped(handles[..last], i), handles[last], id);
    }
  }

  lemma {:induction false} CountNone(handles: seq<Handle>, id: string)
    ensures Count(handles, id) == 0 <==> forall i | 0 <= i < |handles| :: handles[i].key.id != id
  {
    if handles != [] {
      var last := |handles| - 1;
      CountNone(handles[..last], id);
      assert forall i | 0 <= i < last :: handles[i] == handles[..last][i];
    }
  }

  lemma CreatedKeeps(s: State, id: string, now: int)
    requires Accounts(s)
    ensures Accounts(Created(s, id, now)) && Created(s, id, now).totalSize == s.totalSize
  {
    if id !in s.entries {
      var s' := Created(s, id, now);
      SizesPut(s.entries, id, Entry(Unlocked, 0, 0, 0, now));
      forall i | 0 <= i < |s.handles|
        ensures HandleOk(s', i)
      {
        assert HandleOk(s, i);
      }
      assert forall i | 0 <= i < |s.handles| :: HandleOk(s, i) && s.handles[i].key.id != id;
      CountNone(s.handles, id);
      forall j | j in s'.entries
        ensures EntryOk(s', j)
      {
        assert j != id ==> EntryOk(s, j);
      }
    }
  }

  lemma DeletedKeeps(s: State, id: string)
    requires Accounts(s) && IsIdle(s, id)
    ensures Accounts(Deleted(s, id))
  {
    var s' := Deleted(s, id);
    SizesRemove(s.entries, id);
    assert EntryOk(s, id);
    CountNone(s.handles, id);
    forall i | 0 <= i < |s.handles|
      ensures HandleOk(s', i)
    {
      assert HandleOk(s, i);
    }
    forall j | j in s'.entries
      ensures EntryOk(s', j)
    {
      assert EntryOk(s, j);
    }
  }

  lemma {:induction false} EvictedKeeps(s: State, victims: seq<string>)
    requires Accounts(s) && Evictable(s, victims)
    ensures Accounts(Evicted(s, victims))
    decreases |victims|
  {
    if victims != [] {
      DeletedKeeps(s, victims[0]);
      EvictedKeeps(Deleted(s, victims[0]), victims[1..]);
    }
  }

  /** A new lock state that suits the streams open on the entry. */
  lemma LockStateKeeps(s: State, id: string, lockState: LockState, modified: int)
    requires Accounts(s) && id in s.entries
    requires lockState == Unlocking ==> s.entries[id].accessors > 0
    requires s.entries[id].accessors > 0 ==> (lockState != Unlocked <==> s.entries[id].lockState != Unlocked)
    ensures Accounts(WithEntry(s, id, s.entries[id].(lockState := lockState, modified := modified)))
  {
    var s' := WithEntry(s, id, s.entries[id].(lockState := lockState, modified := modified));
    SizesPut(s.entries, id, s'.entries[id]);
    assert EntryOk(s, id);
    CountNone(s.handles, id);
    forall i | 0 <= i < |s.handles|
      ensures HandleOk(s', i)
    {
      assert HandleOk(s, i);
    }
    forall j | j in s'.entries
      ensures EntryOk(s', j)
    {
      assert EntryOk(s, j);
    }
  }

  /** Opening a stream of the right kind. */
  lemma OpenedKeeps(s: State, s': State, h: Handle)
    requires Accounts(s) && h.key.id in s.entries && (h.writer <==> s.entries[h.key.id].lockState != Unlocked)
    requires s' == if h.writer then WriterOpened(s, h.key) else ReaderOpened(s, h.key)
    ensures Accounts(s')
  {
    var id := h.key.id;
    SizesPut(s.entries, id, s'.entries[id]);
    forall i | 0 <= i < |s'.handles|
      ensures HandleOk(s', i)
    {
      assert i < |s.handles| ==> HandleOk(s, i);
    }
    forall j | j in s'.entries
      ensures EntryOk(s', j)
    {
      assert EntryOk(s, j);
      CountAdd(s.handles, h, j);
    }
  }

  lemma ReleasableHandle(s: State, i: nat)
    requires Accounts(s) && i < |s.handles|
    ensures s.handles[i].key.id in s.entries && s.entries[s.handles[i].key.id].accessors > 0
  {
    assert HandleOk(s, i);
    assert EntryOk(s, s.handles[i].key.id);
    CountNone(s.handles, s.handles[i].key.id);
  }

  lemma ReleasedKeeps(s: State, i: nat, now: int)
    requires Accounts(s) && i < |s.handles|
    ensures s.handles[i].key.id in s.entries && s.entries[s.handles[i].key.id].accessors > 0
    ensures Accounts(Released(s, i, now))
  {
    ReleasableHandle(s, i);
    var s', id := Released(s, i, now), s.handles[i].key.id;
    SizesPut(s.entries, id, s'.entries[id]);
    ReleasedEntries(s, i, now);
    CountNone(s'.handles, id);
    forall k | 0 <= k < |s'.handles|
      ensures HandleOk(s', k)
    {
      assert HandleOk(s, if k < i then k else k + 1);
    }
  }

  lemma ReleasedEntries(s: State, i: nat, now: int)
    requires Accounts(s) && i < |s.handles|
    requires s.handles[i].key.id in s.entries && s.entries[s.handles[i].key.id].accessors > 0
    ensures var s' := Released(s, i, now); forall j | j in s'.entries :: EntryOk(s', j)
  {
    var s' := Released(s, i, now);
    forall j | j in s'.entries
      ensures EntryOk(s', j)
    {
      assert EntryOk(s, j);
      CountDrop(s.handles, i, j);
    }
  }

  function Counts(handles: seq<Handle>, ids: set<string>): map<string, nat> {
    map id | id in ids :: Count(handles, id)
  }

  /** Every open stream is counted once in the accessors of its entry. */
  lemma {:induction false} AccessorsAddUp(handles: seq<Handle>, ids: set<string>)
    requires forall i | 0 <= i < |handles| :: handles[i].key.id in ids
    ensures Sum(Counts(handles, ids)) == |handles|
  {
    if handles == [] {
      ZeroSum(Counts(handles, ids));
    } else {
      var rest, id := handles[..|handles| - 1], handles[|handles| - 1].key.id;
      var before := Counts(rest, ids);
      AccessorsAddUp(rest, ids);
      assert Counts(handles, ids) == before[id := before[id] + 1];
      SumPut(before, id, before[id] + 1);
      SumRemove(before, id);
    }
  }

  lemma {:induction false} ZeroSum(m: map<string, nat>)
    requires forall k | k in m :: m[k] == 0
    ensures Sum(m) == 0
    decreases |m|
  {
    if m != map[] {
      var k :| k in m;
      SumRemove(m, k);
      ZeroSum(m - {k});
    }
  }

  function Accessors(entries: map<string, Entry>): map<string, nat> {
    map id | id in entries :: entries[id].accessors
  }

  lemma AccessorsTotal(s: State)
    requires Accounts(s)
    ensures s.totalAccessors == Sum(Accessors(s.entries))
  {
    assert forall i | 0 <= i < |s.handles| :: HandleOk(s, i) && s.handles[i].key.id in s.entries.Keys;
    AccessorsAddUp(s.handles, s.entries.Keys);
    forall id | id in s.entries
      ensures s.entries[id].accessors == Count(s.handles, id)
    {
      assert EntryOk(s, id);
    }
    assert Accessors(s.entries) == Counts(s.handles, s.entries.Keys);
  }

  // ----- Files that cannot be deleted -----

  /** If the stuck files are there anyway, none is left over. */
  lemma MergeNothing(files: map<Key, nat>, stuck: set<Key>)
    ensures files + StuckFiles(files, stuck) == files
  {
  }

  /** Nothing has been deleted. */
  lemma LeavingSame(s: State, s': State, stuck: set<Key>)
    requires s'.files == s.files
    ensures Leaving(s, s', stuck) == s'
  {
    MergeNothing(s.files, stuck);
  }

  /** All files can be deleted. */
  lemma NothingStuck(s: State, s': State)
    ensures Leaving(s, s', {}) == s'
  {
    assert s'.files + StuckFiles(s.files, {}) == s'.files;
  }

  // ----- Eviction -----

  /** Whatever is evicted, the entries that are locked or open stay as they are. */
  lemma {:induction false} EvictionSpares(s: State, victims: seq<string>)
    requires Evictable(s, victims)
    ensures var s' := Evicted(s, victims);
      && s'.entries.Keys <= s.entries.Keys && s'.handles == s.handles && s'.maxCache == s.maxCache
      && (forall id | id in s'.entries :: s'.entries[id] == s.entries[id])
      && (forall id | id in s.entries && !Idle(s.entries[id]) :: id in s'.entries)
    decreases |victims|
  {
    if victims != [] {
      EvictionSpares(Deleted(s, victims[0]), victims[1..]);
    }
  }

  /** The idle entries' part of the total: what eviction can free at most. */
  function IdleSizes(entries: map<string, Entry>): map<string, nat> {
    map id | id in entries :: if Idle(entries[id]) then entries[id].size else 0
  }

  lemma {:induction false} EvictionFreesIdle(s: State, victims: seq<string>)
    requires Evictable(s, victims)
    ensures var s' := Evicted(s, victims);
      s'.totalSize - Sum(IdleSizes(s'.entries)) == s.totalSize - Sum(IdleSizes(s.entries))
    decreases |victims|
  {
    if victims != [] {
      var s1 := Deleted(s, victims[0]);
      assert IdleSizes(s1.entries) == IdleSizes(s.entries) - {victims[0]};
      SumRemove(IdleSizes(s.entries), victims[0]);
      EvictionFreesIdle(s1, victims[1..]);
    }
  }
}
