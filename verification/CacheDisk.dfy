/** The disk cache's sizes against what is on disk. */
module CacheDisk {
  import opened CacheState
  import opened CacheRuns

  /** What a stream counts for: nothing while it is being written. */
  function Counted(s: State, key: Key): nat {
    if Writing(s, key) then 0 else FileSize(s, key)
  }

  /** What the first `n` streams of `id` count for. */
  function Stored(s: State, id: string, n: nat): nat {
    if n == 0 then 0 else Stored(s, id, n - 1) + Counted(s, Key(id, n - 1))
  }

  predicate SizeOk(s: State, id: string)
    requires id in s.entries
  {
    s.entries[id].size == Stored(s, id, s.entries[id].streams)
  }

  /** The size of every entry is the size of its files that are not being written. */
  ghost predicate SizesOk(s: State) {
    forall id | id in s.entries :: SizeOk(s, id)
  }

  ghost predicate FileOk(s: State, key: Key) {
    key.id in s.entries && key.index < s.entries[key.id].streams
  }

  /** A stream that is being written is one of its entry's, and has a file. */
  ghost predicate WriterOk(s: State, i: nat)
    requires i < |s.handles|
  {
    s.handles[i].writer ==> s.handles[i].key in s.files && FileOk(s, s.handles[i].key)
  }

  ghost predicate WritersOk(s: State) {
    forall i | 0 <= i < |s.handles| :: WriterOk(s, i)
  }

  ghost predicate DiskOk(s: State) {
    SizesOk(s) && WritersOk(s)
  }

  lemma {:induction false} StoredSame(s: State, s': State, id: string, n: nat)
    requires forall k | 0 <= k < n :: Counted(s', Key(id, k)) == Counted(s, Key(id, k))
    ensures Stored(s', id, n) == Stored(s, id, n)
  {
    if n > 0 {
      StoredSame(s, s', id, n - 1);
    }
  }

  /** If only stream `j` counts differently. */
  lemma {:induction false} StoredChange(s: State, s': State, id: string, n: nat, j: nat)
    requires forall k | 0 <= k < n && k != j :: Counted(s', Key(id, k)) == Counted(s, Key(id, k))
    ensures Stored(s', id, n) ==
      Stored(s, id, n) + if j < n then Counted(s', Key(id, j)) - Counted(s, Key(id, j)) else 0
  {
    if n > 0 {
      StoredChange(s, s', id, n - 1, j);
    }
  }

  /** More streams count for more, unless none of them counts. */
  lemma {:induction false} StoredMore(s: State, id: string, n: nat, m: nat)
    requires n <= m
    ensures Stored(s, id, n) <= Stored(s, id, m)
    ensures Stored(s, id, n) == Stored(s, id, m) <==> forall k | n <= k < m :: Counted(s, Key(id, k)) == 0
    decreases m
  {
    if n < m {
      StoredMore(s, id, n, m - 1);
    }
  }

  lemma {:induction false} StoredHas(s: State, id: string, n: nat, j: nat)
    requires j < n
    ensures Counted(s, Key(id, j)) <= Stored(s, id, n)
  {
    if j < n - 1 {
      StoredHas(s, id, n - 1, j);
    }
  }

  // ----- Every step keeps it -----

  lemma CreatedDisk(s: State, id: string, now: int)
    requires DiskOk(s)
    ensures DiskOk(Created(s, id, now))
  {
    var s' := Created(s, id, now);
    forall j | j in s'.entries
      ensures SizeOk(s', j)
    {
      if j in s.entries {
        assert SizeOk(s, j);
        StoredSame(s, s', j, s.entries[j].streams);
      }
    }
    forall i | 0 <= i < |s'.handles|
      ensures WriterOk(s', i)
    {
      assert WriterOk(s, i);
    }
  }

  lemma DeletedDisk(s: State, id: string)
    requires DiskOk(s) && Accounts(s) && IsIdle(s, id)
    ensures DiskOk(Deleted(s, id))
  {
    var s' := Deleted(s, id);
    assert EntryOk(s, id);
    CountNone(s.handles, id);
    forall j | j in s'.entries
      ensures SizeOk(s', j)
    {
      assert SizeOk(s, j);
      StoredSame(s, s', j, s.entries[j].streams);
    }
    forall i | 0 <= i < |s'.handles|
      ensures WriterOk(s', i)
    {
      assert WriterOk(s, i);
    }
  }

  lemma {:induction false} EvictedDisk(s: State, victims: seq<string>)
    requires DiskOk(s) && Accounts(s) && Evictable(s, victims)
    ensures DiskOk(Evicted(s, victims))
    decreases |victims|
  {
    if victims != [] {
      DeletedKeeps(s, victims[0]);
      DeletedDisk(s, victims[0]);
      EvictedDisk(Deleted(s, victims[0]), victims[1..]);
    }
  }

  lemma LockStateDisk(s: State, id: string, lockState: LockState, modified: int)
    requires DiskOk(s) && id in s.entries
    ensures DiskOk(WithEntry(s, id, s.entries[id].(lockState := lockState, modified := modified)))
  {
    var s' := WithEntry(s, id, s.entries[id].(lockState := lockState, modified := modified));
    forall j | j in s'.entries
      ensures SizeOk(s', j)
    {
      assert SizeOk(s, j);
      StoredSame(s, s', j, s.entries[j].streams);
    }
    forall i | 0 <= i < |s'.handles|
      ensures WriterOk(s', i)
    {
      assert WriterOk(s, i);
    }
  }

  lemma UnlockedDisk(s: State, id: string, now: int)
    requires DiskOk(s) && id in s.entries
    ensures DiskOk(UnlockedEntry(s, id, now))
  {
    var e := s.entries[id];
    if e.accessors > 0 {
      LockStateDisk(s, id, Unlocking, e.modified);
    } else {
      LockStateDisk(s, id, Unlocked, now);
    }
  }

  /** The file that a writer is about to truncate does not count, because it is being written or was left behind, and
      something would be taken off for it. */
  predicate TakesUncounted(s: State, key: Key) {
    && key.id in s.entries && (Writing(s, key) || key.index >= s.entries[key.id].streams)
    && FileSize(s, key) > 0 && s.entries[key.id].size > 0
  }

  /** The stream that is opened is not the next one of its entry, and a file that was left behind lies between. */
  predicate SkipsLeftover(s: State, key: Key) {
    key.id in s.entries && exists k | s.entries[key.id].streams <= k < key.index :: FileSize(s, Key(key.id, k)) > 0
  }

  /** Opening a writer leaves the sizes right if and only if the file that it truncates is counted, or nothing is taken
      off for it, and no file between is left from an earlier entry; and what is taken off for a counted file is never
      more than there is. */
  lemma WriterOpenedExactly(s: State, key: Key)
    requires DiskOk(s) && key.id in s.entries
    ensures var s' := WriterOpened(s, key);
      && WritersOk(s') && (SizesOk(s') <==> !TakesUncounted(s, key) && !SkipsLeftover(s, key))
      && (!Writing(s, key) && FileOk(s, key) ==> FileSize(s, key) <= s.entries[key.id].size)
  {
    var s' := WriterOpened(s, key);
    forall i | 0 <= i < |s'.handles|
      ensures WriterOk(s', i)
    {
      assert i < |s.handles| ==> WriterOk(s, i);
    }
    WriterOpenedSize(s, key);
    forall j | j in s'.entries && j != key.id
      ensures SizeOk(s', j)
    {
      assert SizeOk(s, j);
      WriterCounts(s, key);
      StoredSame(s, s', j, s.entries[j].streams);
    }
  }

  lemma NotWritten(s: State, key: Key)
    requires DiskOk(s) && key.id in s.entries && key.index >= s.entries[key.id].streams
    ensures !Writing(s, key) && Counted(s, key) == FileSize(s, key)
  {
    forall i | 0 <= i < |s.handles|
      ensures s.handles[i] != Handle(key, true)
    {
      assert WriterOk(s, i);
    }
  }

  /** What the entry's streams count for once the writer is open. */
  lemma WriterOpenedStored(s: State, key: Key)
    requires DiskOk(s) && key.id in s.entries
    ensures var s', e := WriterOpened(s, key), s.entries[key.id];
      var before := Stored(s, key.id, e.streams) - if key.index < e.streams then Counted(s, key) else 0;
      && before <= Stored(s', key.id, s'.entries[key.id].streams)
      && (before == Stored(s', key.id, s'.entries[key.id].streams) <==> !SkipsLeftover(s, key))
  {
    var s', e := WriterOpened(s, key), s.entries[key.id];
    WriterCounts(s, key);
    StoredChange(s, s', key.id, e.streams, key.index);
    StoredMore(s', key.id, e.streams, s'.entries[key.id].streams);
    forall k | e.streams <= k < key.index
      ensures Counted(s', Key(key.id, k)) == FileSize(s, Key(key.id, k))
    {
      NotWritten(s, Key(key.id, k));
    }
  }

  /** The entry of the stream that is opened. */
  lemma WriterOpenedSize(s: State, key: Key)
    requires DiskOk(s) && key.id in s.entries
    ensures SizeOk(WriterOpened(s, key), key.id) <==> !TakesUncounted(s, key) && !SkipsLeftover(s, key)
    ensures !Writing(s, key) && FileOk(s, key) ==> FileSize(s, key) <= s.entries[key.id].size
  {
    assert SizeOk(s, key.id);
    WriterOpenedStored(s, key);
    if key.index < s.entries[key.id].streams {
      StoredHas(s, key.id, s.entries[key.id].streams, key.index);
    }
  }

  lemma WriterCounts(s: State, key: Key)
    requires key.id in s.entries
    ensures var s' := WriterOpened(s, key);
      Counted(s', key) == 0 && forall k | k != key :: Counted(s', k) == Counted(s, k)
  {
    var s' := WriterOpened(s, key);
    assert s'.handles[|s.handles|] == Handle(key, true);
    forall k | k != key
      ensures Counted(s', k) == Counted(s, k)
    {
      if Writing(s, k) {
        var i :| 0 <= i < |s.handles| && s.handles[i] == Handle(k, true);
        assert s'.handles[i] == Handle(k, true);
      }
    }
  }

  lemma ReaderOpenedDisk(s: State, key: Key)
    requires DiskOk(s) && key.id in s.entries
    ensures DiskOk(ReaderOpened(s, key))
  {
    var s' := ReaderOpened(s, key);
    forall k: Key
      ensures Counted(s', k) == Counted(s, k)
    {
      if Writing(s, k) {
        var i :| 0 <= i < |s.handles| && s.handles[i] == Handle(k, true);
        assert s'.handles[i] == Handle(k, true);
      }
    }
    forall j | j in s'.entries
      ensures SizeOk(s', j)
    {
      assert SizeOk(s, j);
      StoredSame(s, s', j, s.entries[j].streams);
    }
    forall i | 0 <= i < |s'.handles|
      ensures WriterOk(s', i)
    {
      assert i < |s.handles| ==> WriterOk(s, i);
    }
  }

  /** Data written to an open stream does not count yet. */
  lemma DataDisk(s: State, i: nat, size: nat)
    requires DiskOk(s) && i < |s.handles| && s.handles[i].writer
    ensures DiskOk(s.(files := s.files[s.handles[i].key := size]))
  {
    var key := s.handles[i].key;
    var s' := s.(files := s.files[key := size]);
    assert s.handles[i] == s'.handles[i] == Handle(key, true);
    forall j | j in s'.entries
      ensures SizeOk(s', j)
    {
      assert SizeOk(s, j);
      StoredSame(s, s', j, s.entries[j].streams);
    }
    forall j | 0 <= j < |s'.handles|
      ensures WriterOk(s', j)
    {
      assert WriterOk(s, j);
    }
  }

  lemma DroppedAt<T>(a: seq<T>, i: nat, j: nat)
    requires i < |a| && j < |a| - 1
    ensures Dropped(a, i)[j] == a[if j < i then j else j + 1]
  {
  }

  /** Another writer is open on the stream of handle `i`. */
  predicate SecondWriter(s: State, i: nat)
    requires i < |s.handles|
  {
    exists j | 0 <= j < |s.handles| :: j != i && s.handles[j] == s.handles[i]
  }

  /** The file that is counted when its stream is closed is still being written. */
  predicate CountsUnfinished(s: State, i: nat)
    requires i < |s.handles|
  {
    s.handles[i].writer && SecondWriter(s, i) && FileSize(s, s.handles[i].key) > 0
  }

  lemma StillWriting(handles: seq<Handle>, i: nat, k: Key)
    requires i < |handles|
    ensures (exists j | 0 <= j < |handles| - 1 :: Dropped(handles, i)[j] == Handle(k, true)) <==>
            (exists j | 0 <= j < |handles| :: j != i && handles[j] == Handle(k, true))
  {
    var dropped := Dropped(handles, i);
    if j :| 0 <= j < |handles| && j != i && handles[j] == Handle(k, true) {
      DroppedAt(handles, i, if j < i then j else j - 1);
      assert dropped[if j < i then j else j - 1] == Handle(k, true);
    }
    if j :| 0 <= j < |handles| - 1 && dropped[j] == Handle(k, true) {
      DroppedAt(handles, i, j);
      assert handles[if j < i then j else j + 1] == Handle(k, true);
    }
  }

  lemma ReleasedCounts(s: State, i: nat, now: int)
    requires Accounts(s) && i < |s.handles|
    requires s.handles[i].key.id in s.entries && s.entries[s.handles[i].key.id].accessors > 0
    ensures var s', h := Released(s, i, now), s.handles[i];
      && (forall k | k != h.key || !h.writer :: Counted(s', k) == Counted(s, k))
      && (h.writer ==> Counted(s, h.key) == 0)
      && (h.writer ==> Counted(s', h.key) == if SecondWriter(s, i) then 0 else FileSize(s, h.key))
  {
    var s', h := Released(s, i, now), s.handles[i];
    forall k | k != h.key || !h.writer
      ensures Writing(s', k) == Writing(s, k)
    {
      StillWriting(s.handles, i, k);
    }
    if h.writer {
      assert h == Handle(h.key, true);
      StillWriting(s.handles, i, h.key);
    }
  }

  /** Closing a stream leaves the sizes right if and only if its file is not still being written, or is empty. */
  lemma ReleasedExactly(s: State, i: nat, now: int)
    requires DiskOk(s) && Accounts(s) && i < |s.handles|
    requires s.handles[i].key.id in s.entries && s.entries[s.handles[i].key.id].accessors > 0
    ensures WritersOk(Released(s, i, now)) && (SizesOk(Released(s, i, now)) <==> !CountsUnfinished(s, i))
  {
    var s', key := Released(s, i, now), s.handles[i].key;
    ReleasedWriters(s, i, now);
    ReleasedSize(s, i, now);
    forall j | j in s'.entries && j != key.id
      ensures SizeOk(s', j)
    {
      assert SizeOk(s, j);
      ReleasedCounts(s, i, now);
      StoredSame(s, s', j, s.entries[j].streams);
    }
  }

  lemma ReleasedWriters(s: State, i: nat, now: int)
    requires WritersOk(s) && i < |s.handles|
    requires s.handles[i].key.id in s.entries && s.entries[s.handles[i].key.id].accessors > 0
    ensures WritersOk(Released(s, i, now))
  {
    var s' := Released(s, i, now);
    forall j | 0 <= j < |s'.handles|
      ensures WriterOk(s', j)
    {
      DroppedAt(s.handles, i, j);
      assert WriterOk(s, if j < i then j else j + 1);
    }
  }

  /** The entry of the stream that is closed. */
  lemma ReleasedSize(s: State, i: nat, now: int)
    requires DiskOk(s) && Accounts(s) && i < |s.handles|
    requires s.handles[i].key.id in s.entries && s.entries[s.handles[i].key.id].accessors > 0
    ensures SizeOk(Released(s, i, now), s.handles[i].key.id) <==> !CountsUnfinished(s, i)
  {
    var s', key := Released(s, i, now), s.handles[i].key;
    var streams := s.entries[key.id].streams;
    assert HandleOk(s, i);
    assert SizeOk(s, key.id);
    ReleasedCounts(s, i, now);
    if s.handles[i].writer {
      assert WriterOk(s, i);
      StoredChange(s, s', key.id, streams, key.index);
    } else {
      StoredSame(s, s', key.id, streams);
    }
  }

  /** Files that are left from entries that have gone count for none. */
  lemma LeavingDisk(s: State, s': State, stuck: set<Key>)
    requires DiskOk(s') && s'.handles == s.handles && StaysOf(s, s')
    ensures DiskOk(Leaving(s, s', stuck))
  {
    var t := Leaving(s, s', stuck);
    forall j | j in t.entries
      ensures SizeOk(t, j)
    {
      assert SizeOk(s', j);
      forall k | 0 <= k < t.entries[j].streams
        ensures Counted(t, Key(j, k)) == Counted(s', Key(j, k))
      {
        assert Writing(t, Key(j, k)) == Writing(s', Key(j, k));
        assert Key(j, k) in s.files ==> Key(j, k) in s'.files && s'.files[Key(j, k)] == s.files[Key(j, k)];
      }
      StoredSame(s', t, j, t.entries[j].streams);
    }
    forall i | 0 <= i < |t.handles|
      ensures WriterOk(t, i)
    {
      assert WriterOk(s', i);
    }
  }

  /** The files of the entries that are still there are still there. */
  ghost predicate StaysOf(s: State, s': State) {
    forall k | k in s.files && k.id in s'.entries :: k in s'.files && s'.files[k] == s.files[k]
  }

  lemma {:induction false} EvictionStays(s: State, victims: seq<string>)
    requires Evictable(s, victims)
    ensures StaysOf(s, Evicted(s, victims)) && Evicted(s, victims).handles == s.handles
    decreases |victims|
  {
    if victims != [] {
      EvictionStays(Deleted(s, victims[0]), victims[1..]);
      EvictionSpares(Deleted(s, victims[0]), victims[1..]);
    }
  }

  lemma EvictedLeavingDisk(s: State, victims: seq<string>, stuck: set<Key>)
    requires DiskOk(s) && Accounts(s) && Evictable(s, victims)
    ensures DiskOk(Leaving(s, Evicted(s, victims), stuck))
  {
    EvictedDisk(s, victims);
    EvictionStays(s, victims);
    LeavingDisk(s, Evicted(s, victims), stuck);
  }

  // ----- Exactly when the sizes are right -----

  /** The call takes off what was not counted, passes by what was left behind, or counts what is not finished.  The last
      needs two writers on one stream, the others that, or a file that could not be deleted before. */
  predicate Miscounts(s: State, a: Action) {
    match a
    case Write(key, opens) => WriteOpens(s, key, opens) && (TakesUncounted(s, key) || SkipsLeftover(s, key))
    case Release(i, _, _, _) => i < |s.handles| && CountsUnfinished(s, i)
    case _ => false
  }

  /** A call that has the sizes right before it has them right after it if and only if it does not miscount. */
  lemma ApplyExactly(s: State, a: Action)
    requires DiskOk(s) && Accounts(s) && Enabled(s, a)
    ensures WritersOk(Apply(s, a)) && (SizesOk(Apply(s, a)) <==> !Miscounts(s, a))
  {
    match a
    case Lock(id, now, victims, stuck) =>
      LockDisk(s, id, now, victims, stuck);
    case Write(key, opens) =>
      if WriteOpens(s, key, opens) {
        WriterOpenedExactly(s, key);
      }
    case Data(i, size) =>
      DataDisk(s, i, size);
    case Unlock(id, now, victims, stuck) =>
      if s.entries[id].lockState == Locked {
        UnlockedKeeps(s, id, now);
        UnlockedDisk(s, id, now);
        EvictedLeavingDisk(UnlockedEntry(s, id, now), victims, stuck);
      }
    case Read(key, opens) =>
      if ReadOpens(s, key, opens) {
        ReaderOpenedDisk(s, key);
      }
    case Release(i, now, victims, stuck) =>
      ReleaseExactly(s, i, now, victims, stuck);
    case Delete(id, stuck) =>
      if IsIdle(s, id) {
        DeletedDisk(s, id);
        LeavingDisk(s, Deleted(s, id), stuck);
      }
  }

  lemma LockDisk(s: State, id: string, now: int, victims: seq<string>, stuck: set<Key>)
    requires DiskOk(s) && Accounts(s) && Enabled(s, Lock(id, now, victims, stuck))
    ensures DiskOk(Apply(s, Lock(id, now, victims, stuck)))
  {
    CreatedKeeps(s, id, now);
    CreatedDisk(s, id, now);
    EvictedLeavingDisk(Created(s, id, now), victims, stuck);
    if LockOutcome(Created(s, id, now), id, victims, stuck).0 == Granted {
      var s' := Leaving(Created(s, id, now), Evicted(Created(s, id, now), victims), stuck);
      LockStateDisk(s', id, Locked, s'.entries[id].modified);
    }
  }

  /** Where closing a stream is followed by a check of the limit, no other stream was open on the entry. */
  lemma ReleaseExactly(s: State, i: nat, now: int, victims: seq<string>, stuck: set<Key>)
    requires DiskOk(s) && Accounts(s) && Enabled(s, Release(i, now, victims, stuck))
    ensures var s' := Apply(s, Release(i, now, victims, stuck));
      WritersOk(s') && (SizesOk(s') <==> !CountsUnfinished(s, i))
  {
    ReleasedKeeps(s, i, now);
    ReleasedExactly(s, i, now);
    if ReleaseEvicts(s, i) {
      LastHandle(s, i);
      EvictedLeavingDisk(Released(s, i, now), victims, stuck);
    } else {
      LeavingSame(s, Released(s, i, now), stuck);
    }
  }

  lemma LastHandle(s: State, i: nat)
    requires Accounts(s) && ReleaseEvicts(s, i)
    ensures !SecondWriter(s, i)
  {
    var id := s.handles[i].key.id;
    assert EntryOk(s, id);
    CountDrop(s.handles, i, id);
    CountNone(Dropped(s.handles, i), id);
    forall j | 0 <= j < |s.handles| && j != i
      ensures s.handles[j] != s.handles[i]
    {
      DroppedAt(s.handles, i, if j < i then j else j - 1);
    }
  }

  /** The sizes are right before and after every call. */
  ghost predicate AlwaysRight(s: State, actions: seq<Action>)
    requires CanRun(s, actions)
    decreases |actions|
  {
    SizesOk(s) && (actions == [] || AlwaysRight(Apply(s, actions[0]), actions[1..]))
  }

  ghost predicate NeverMiscounts(s: State, actions: seq<Action>)
    requires CanRun(s, actions)
    decreases |actions|
  {
    actions == [] || (!Miscounts(s, actions[0]) && NeverMiscounts(Apply(s, actions[0]), actions[1..]))
  }

  /** Over every run from where they are right, the sizes are always those of the files on disk that are not being
      written if and only if no call of it miscounts. */
  lemma {:induction false} RunExactly(s: State, actions: seq<Action>)
    requires Accounts(s) && DiskOk(s) && CanRun(s, actions)
    ensures AlwaysRight(s, actions) <==> NeverMiscounts(s, actions)
    decreases |actions|
  {
    if actions != [] {
      ApplyKeeps(s, actions[0]);
      ApplyExactly(s, actions[0]);
      if !Miscounts(s, actions[0]) {
        RunExactly(Apply(s, actions[0]), actions[1..]);
      }
    }
  }

  /** From the empty cache on. */
  lemma FromEmptyExactly(maxCache: nat, actions: seq<Action>)
    requires CanRun(Empty(maxCache), actions)
    ensures AlwaysRight(Empty(maxCache), actions) <==> NeverMiscounts(Empty(maxCache), actions)
  {
    EmptyAccounts(maxCache);
    RunExactly(Empty(maxCache), actions);
  }

  // ----- One writer at a time -----

  ghost predicate OneWriter(s: State, i: nat, j: nat)
    requires i < |s.handles| && j < |s.handles|
  {
    s.handles[i].writer && s.handles[i] == s.handles[j] ==> i == j
  }

  ghost predicate OneWriterEach(s: State) {
    forall i, j | 0 <= i < |s.handles| && 0 <= j < |s.handles| :: OneWriter(s, i, j)
  }

  /** No file has been left behind by an entry that has gone. */
  ghost predicate NoneLeft(s: State) {
    forall key | key in s.files :: FileOk(s, key)
  }

  function StuckOf(a: Action): set<Key> {
    match a
    case Lock(_, _, _, stuck) => stuck
    case Unlock(_, _, _, stuck) => stuck
    case Release(_, _, _, stuck) => stuck
    case Delete(_, stuck) => stuck
    case _ => {}
  }

  /** No second writer is opened on a stream, and all files can be deleted. */
  predicate Proper(s: State, a: Action) {
    (a.Write? ==> !Writing(s, a.key)) && StuckOf(a) == {}
  }

  ghost predicate AllProper(s: State, actions: seq<Action>)
    requires CanRun(s, actions)
    decreases |actions|
  {
    actions == [] || (Proper(s, actions[0]) && AllProper(Apply(s, actions[0]), actions[1..]))
  }

  lemma ProperStep(s: State, a: Action)
    requires OneWriterEach(s) && NoneLeft(s) && Enabled(s, a) && Proper(s, a)
    ensures OneWriterEach(Apply(s, a)) && !Miscounts(s, a)
  {
    var s' := Apply(s, a);
    HandlesAfter(s, a);
    forall i, j | 0 <= i < |s'.handles| && 0 <= j < |s'.handles|
      ensures OneWriter(s', i, j)
    {
      match a {
        case Release(k, _, _, _) =>
          DroppedAt(s.handles, k, i);
          DroppedAt(s.handles, k, j);
          assert OneWriter(s, if i < k then i else i + 1, if j < k then j else j + 1);
        case _ =>
          assert i < |s.handles| && j < |s.handles| ==> OneWriter(s, i, j);
      }
    }
    if a.Release? && SecondWriter(s, a.handle) {
      var j :| 0 <= j < |s.handles| && j != a.handle && s.handles[j] == s.handles[a.handle];
      assert OneWriter(s, a.handle, j);
    }
    if a.Write? {
      NothingBehind(s, a.key);
    }
  }

  lemma NothingBehind(s: State, key: Key)
    requires NoneLeft(s) && !Writing(s, key)
    ensures !TakesUncounted(s, key) && !SkipsLeftover(s, key)
  {
    assert key in s.files ==> FileOk(s, key);
    forall k: nat
      ensures Key(key.id, k) in s.files ==> FileOk(s, Key(key.id, k))
    {
    }
  }

  lemma HandlesAfter(s: State, a: Action)
    requires Enabled(s, a)
    ensures var handles := Apply(s, a).handles;
      match a
      case Write(key, opens) => handles == s.handles + if WriteOpens(s, key, opens) then [Handle(key, true)] else []
      case Read(key, opens) => handles == s.handles + if ReadOpens(s, key, opens) then [Handle(key, false)] else []
      case Release(i, _, _, _) => handles == Dropped(s.handles, i)
      case _ => handles == s.handles
  {
    match a
    case Lock(id, now, victims, _) => EvictionSpares(Created(s, id, now), victims);
    case Write(_, _) =>
    case Data(_, _) =>
    case Unlock(id, now, victims, _) =>
      if s.entries[id].lockState == Locked {
        EvictionSpares(UnlockedEntry(s, id, now), victims);
      }
    case Read(_, _) =>
    case Release(i, now, victims, _) => EvictionSpares(Released(s, i, now), victims);
    case Delete(_, _) =>
  }

  lemma {:induction false} EvictionLeavesNone(s: State, victims: seq<string>)
    requires NoneLeft(s) && Evictable(s, victims)
    ensures NoneLeft(Evicted(s, victims))
    decreases |victims|
  {
    if victims != [] {
      DeletedLeavesNone(s, victims[0]);
      EvictionLeavesNone(Deleted(s, victims[0]), victims[1..]);
    }
  }

  lemma DeletedLeavesNone(s: State, id: string)
    requires NoneLeft(s) && id in s.entries
    ensures NoneLeft(Deleted(s, id))
  {
    var s' := Deleted(s, id);
    forall key | key in s'.files
      ensures FileOk(s', key)
    {
      assert FileOk(s, key);
    }
  }

  /** With at least the same streams and no other files. */
  lemma MoreStreamsLeaveNone(s: State, s': State)
    requires NoneLeft(s) && s'.files.Keys <= s.files.Keys
    requires forall id | id in s.entries :: id in s'.entries && s.entries[id].streams <= s'.entries[id].streams
    ensures NoneLeft(s')
  {
    forall key | key in s'.files
      ensures FileOk(s', key)
    {
      assert key in s.files.Keys;
      assert FileOk(s, key);
    }
  }

  lemma LockLeavesNone(s: State, id: string, victims: seq<string>)
    requires NoneLeft(s) && id in s.entries && Evictable(s, victims)
    ensures NoneLeft(LockOutcome(s, id, victims, {}).1)
  {
    EvictionLeavesNone(s, victims);
    NothingStuck(s, Evicted(s, victims));
    MoreStreamsLeaveNone(Evicted(s, victims), LockOutcome(s, id, victims, {}).1);
  }

  lemma WriterLeavesNone(s: State, key: Key)
    requires NoneLeft(s) && key.id in s.entries
    ensures NoneLeft(WriterOpened(s, key))
  {
    var s' := WriterOpened(s, key);
    forall f | f in s'.files
      ensures FileOk(s', f)
    {
      assert f in s.files ==> FileOk(s, f);
    }
  }

  lemma StepLeavesNone(s: State, a: Action)
    requires NoneLeft(s) && WritersOk(s) && Enabled(s, a) && StuckOf(a) == {}
    ensures NoneLeft(Apply(s, a))
  {
    match a
    case Lock(id, now, victims, _) =>
      MoreStreamsLeaveNone(s, Created(s, id, now));
      LockLeavesNone(Created(s, id, now), id, victims);
    case Write(key, opens) =>
      if WriteOpens(s, key, opens) {
        WriterLeavesNone(s, key);
      }
    case Data(i, size) =>
      assert WriterOk(s, i);
      MoreStreamsLeaveNone(s, Apply(s, a));
    case Unlock(id, now, victims, _) =>
      if s.entries[id].lockState == Locked {
        MoreStreamsLeaveNone(s, UnlockedEntry(s, id, now));
        EvictionLeavesNone(UnlockedEntry(s, id, now), victims);
        NothingStuck(s, Evicted(UnlockedEntry(s, id, now), victims));
      }
    case Read(key, opens) =>
      MoreStreamsLeaveNone(s, Apply(s, a));
    case Release(i, now, victims, _) =>
      MoreStreamsLeaveNone(s, Released(s, i, now));
      EvictionLeavesNone(Released(s, i, now), victims);
      NothingStuck(s, Evicted(Released(s, i, now), victims));
    case Delete(id, _) =>
      if IsIdle(s, id) {
        DeletedLeavesNone(s, id);
        NothingStuck(s, Deleted(s, id));
      }
  }

  /** As long as no second writer is opened on a stream and all files can be deleted, the sizes are those of the files
      on disk. */
  lemma {:induction false} RunKeepsDisk(s: State, actions: seq<Action>)
    requires Accounts(s) && DiskOk(s) && OneWriterEach(s) && NoneLeft(s) && CanRun(s, actions) && AllProper(s, actions)
    ensures DiskOk(Run(s, actions)) && NoneLeft(Run(s, actions))
    decreases |actions|
  {
    if actions != [] {
      ApplyKeeps(s, actions[0]);
      ProperStep(s, actions[0]);
      ApplyExactly(s, actions[0]);
      StepLeavesNone(s, actions[0]);
      RunKeepsDisk(Apply(s, actions[0]), actions[1..]);
    }
  }

  lemma FromEmptyDisk(maxCache: nat, actions: seq<Action>)
    requires CanRun(Empty(maxCache), actions) && AllProper(Empty(maxCache), actions)
    ensures DiskOk(Run(Empty(maxCache), actions))
  {
    EmptyAccounts(maxCache);
    RunKeepsDisk(Empty(maxCache), actions);
  }
}
