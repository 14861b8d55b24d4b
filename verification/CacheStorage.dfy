/** What has been stored can be read: what a client gets back over whole runs, whatever else the cache is used for. */
module CacheStorage {
  import opened CacheCalls
  import opened CacheRuns
  import opened CacheState

  // ----- What clients have written -----

  /** A client's view of one call, for the streams of `id`: a stream that is opened for writing is emptied, and what is
      written to it is its content then. */
  ghost function ContentAfter(s: State, a: Action, id: string, content: map<nat, nat>): map<nat, nat> {
    match a
    case Write(key, opens) =>
      if key.id == id && opens && id in s.entries && s.entries[id].lockState == Locked then content[key.index := 0]
      else content
    case Data(i, size) =>
      if i < |s.handles| && s.handles[i].key.id == id then content[s.handles[i].key.index := size] else content
    case _ => content
  }

  ghost function Content(s: State, actions: seq<Action>, id: string, content: map<nat, nat>): map<nat, nat>
    requires CanRun(s, actions)
    decreases |actions|
  {
    if actions == [] then content
    else Content(Apply(s, actions[0]), actions[1..], id, ContentAfter(s, actions[0], id, content))
  }

  /** No call of the run removes the entry. */
  ghost predicate Remains(s: State, actions: seq<Action>, id: string)
    requires CanRun(s, actions)
    decreases |actions|
  {
    id in s.entries && (actions == [] || Remains(Apply(s, actions[0]), actions[1..], id))
  }

  /** The files of the entry are those that have been written, with their sizes; it has streams for all of them, and no
      other stream is open. */
  ghost predicate HasContent(s: State, id: string, content: map<nat, nat>) {
    && id in s.entries && (forall index: nat :: FileIs(s, id, content, index))
    && forall i | 0 <= i < |s.handles| && s.handles[i].key.id == id :: s.handles[i].key.index in content
  }

  ghost predicate FileIs(s: State, id: string, content: map<nat, nat>, index: nat) {
    && (Key(id, index) in s.files <==> index in content)
    && (index in content ==>
          Key(id, index) in s.files && s.files[Key(id, index)] == content[index] && id in s.entries
          && index < s.entries[id].streams)
  }

  // ----- What others do -----

  /** Neither the entry nor its files have changed. */
  ghost predicate Untouched(s: State, s': State, id: string) {
    && id in s.entries && id in s'.entries && s'.entries[id] == s.entries[id]
    && forall index: nat :: SameFile(s, s', Key(id, index))
  }

  predicate SameFile(s: State, s': State, key: Key) {
    (key in s'.files <==> key in s.files) && (key in s.files && key in s'.files ==> s'.files[key] == s.files[key])
  }

  lemma {:induction false} EvictionTouchesOthers(s: State, victims: seq<string>, id: string)
    requires Evictable(s, victims) && id in Evicted(s, victims).entries
    ensures Untouched(s, Evicted(s, victims), id) && Evicted(s, victims).handles == s.handles
    decreases |victims|
  {
    EvictionSpares(s, victims);
    if victims != [] {
      var s1 := Deleted(s, victims[0]);
      EvictionTouchesOthers(s1, victims[1..], id);
      forall index: nat
        ensures SameFile(s, Evicted(s, victims), Key(id, index))
      {
        assert SameFile(s1, Evicted(s, victims), Key(id, index));
      }
    }
  }

  /** Files that could not be deleted have been there before. */
  lemma LeavingTouchesOthers(s: State, s': State, stuck: set<Key>, id: string)
    requires Untouched(s, s', id)
    ensures Untouched(s, Leaving(s, s', stuck), id)
  {
    forall index: nat
      ensures SameFile(s, Leaving(s, s', stuck), Key(id, index))
    {
      assert SameFile(s, s', Key(id, index));
    }
  }

  lemma CleanUp(s: State, victims: seq<string>, stuck: set<Key>, id: string)
    requires Evictable(s, victims) && id in Leaving(s, Evicted(s, victims), stuck).entries
    ensures Untouched(s, Leaving(s, Evicted(s, victims), stuck), id)
    ensures Leaving(s, Evicted(s, victims), stuck).handles == s.handles
  {
    EvictionTouchesOthers(s, victims, id);
    LeavingTouchesOthers(s, Evicted(s, victims), stuck, id);
  }

  /** The entry may have changed, but not lost streams; its files are the same, and no stream has been added. */
  ghost predicate Kept(s: State, s': State, id: string) {
    && id in s.entries && id in s'.entries && s'.entries[id].streams == s.entries[id].streams
    && (forall index: nat :: SameFile(s, s', Key(id, index)))
    && forall h | h in s'.handles && h.key.id == id :: h in s.handles
  }

  lemma KeptContent(s: State, s': State, id: string, content: map<nat, nat>)
    requires HasContent(s, id, content) && Kept(s, s', id)
    ensures HasContent(s', id, content)
  {
    forall index: nat
      ensures FileIs(s', id, content, index)
    {
      assert FileIs(s, id, content, index) && SameFile(s, s', Key(id, index));
    }
    forall i | 0 <= i < |s'.handles| && s'.handles[i].key.id == id
      ensures s'.handles[i].key.index in content
    {
      assert s'.handles[i] in s'.handles;
    }
  }

  lemma KeptAndCleanedUp(s: State, s1: State, victims: seq<string>, stuck: set<Key>, id: string)
    requires Evictable(s1, victims) && id in Leaving(s1, Evicted(s1, victims), stuck).entries && Kept(s, s1, id)
    ensures Kept(s, Leaving(s1, Evicted(s1, victims), stuck), id)
  {
    var s' := Leaving(s1, Evicted(s1, victims), stuck);
    CleanUp(s1, victims, stuck, id);
    forall index: nat
      ensures SameFile(s, s', Key(id, index))
    {
      assert SameFile(s, s1, Key(id, index)) && SameFile(s1, s', Key(id, index));
    }
  }

  lemma LockKeepsContent(s: State, i: string, now: int, victims: seq<string>, stuck: set<Key>, id: string)
    requires Enabled(s, Lock(i, now, victims, stuck)) && id in s.entries
    requires id in Apply(s, Lock(i, now, victims, stuck)).entries
    ensures Kept(s, Apply(s, Lock(i, now, victims, stuck)), id)
  {
    var s1 := Created(s, i, now);
    assert Kept(s, s1, id);
    KeptAndCleanedUp(s, s1, victims, stuck, id);
    var s', s2 := Apply(s, Lock(i, now, victims, stuck)), Leaving(s1, Evicted(s1, victims), stuck);
    assert s'.files == s2.files && s'.handles == s2.handles;
    forall index: nat
      ensures SameFile(s, s', Key(id, index))
    {
      assert SameFile(s, s2, Key(id, index));
    }
  }

  lemma ReleasedKept(s: State, i: nat, now: int, id: string)
    requires i < |s.handles| && s.handles[i].key.id in s.entries && s.entries[s.handles[i].key.id].accessors > 0
    requires id in s.entries
    ensures Kept(s, Released(s, i, now), id)
  {
  }

  lemma DeletedKept(s: State, i: string, stuck: set<Key>, id: string)
    requires IsIdle(s, i) && id in s.entries && id != i
    ensures Kept(s, Leaving(s, Deleted(s, i), stuck), id)
  {
    assert Untouched(s, Deleted(s, i), id);
    LeavingTouchesOthers(s, Deleted(s, i), stuck, id);
  }

  /** Calls that write nothing to the entry. */
  lemma OthersKeep(s: State, a: Action, id: string)
    requires Enabled(s, a) && id in s.entries && id in Apply(s, a).entries
    requires a.Lock? || a.Unlock? || a.Release? || a.Delete?
    ensures Kept(s, Apply(s, a), id)
  {
    match a
    case Lock(i, now, victims, stuck) =>
      LockKeepsContent(s, i, now, victims, stuck, id);
    case Unlock(i, now, victims, stuck) =>
      if s.entries[i].lockState == Locked {
        assert Kept(s, UnlockedEntry(s, i, now), id);
        KeptAndCleanedUp(s, UnlockedEntry(s, i, now), victims, stuck, id);
      }
    case Release(i, now, victims, stuck) =>
      ReleasedKept(s, i, now, id);
      KeptAndCleanedUp(s, Released(s, i, now), victims, stuck, id);
    case Delete(i, stuck) =>
      if IsIdle(s, i) {
        DeletedKept(s, i, stuck, id);
      }
  }

  // ----- What the client does -----

  lemma WriteGivesContent(s: State, key: Key, id: string, content: map<nat, nat>)
    requires HasContent(s, id, content) && key.id in s.entries
    ensures HasContent(WriterOpened(s, key), id, if key.id == id then content[key.index := 0] else content)
  {
    var s', content' := WriterOpened(s, key), if key.id == id then content[key.index := 0] else content;
    forall index: nat
      ensures FileIs(s', id, content', index)
    {
      assert FileIs(s, id, content, index);
    }
  }

  lemma ReaderKeepsContent(s: State, key: Key, id: string, content: map<nat, nat>)
    requires HasContent(s, id, content) && key.id in s.entries && key in s.files
    ensures HasContent(ReaderOpened(s, key), id, content)
  {
    assert key.id == id ==> FileIs(s, id, content, key.index);
    forall index: nat
      ensures FileIs(ReaderOpened(s, key), id, content, index)
    {
      assert FileIs(s, id, content, index);
    }
  }

  lemma DataGivesContent(s: State, i: nat, size: nat, id: string, content: map<nat, nat>)
    requires HasContent(s, id, content) && i < |s.handles|
    ensures HasContent(s.(files := s.files[s.handles[i].key := size]), id, ContentAfter(s, Data(i, size), id, content))
  {
    var s', content' := s.(files := s.files[s.handles[i].key := size]), ContentAfter(s, Data(i, size), id, content);
    forall index: nat
      ensures FileIs(s', id, content', index)
    {
      assert FileIs(s, id, content, index);
    }
  }

  lemma StepGivesContent(s: State, a: Action, id: string, content: map<nat, nat>)
    requires HasContent(s, id, content) && Enabled(s, a) && id in Apply(s, a).entries
    ensures HasContent(Apply(s, a), id, ContentAfter(s, a, id, content))
  {
    match a
    case Write(key, opens) =>
      if WriteOpens(s, key, opens) {
        WriteGivesContent(s, key, id, content);
      }
    case Data(i, size) =>
      DataGivesContent(s, i, size, id, content);
    case Read(key, opens) =>
      if ReadOpens(s, key, opens) {
        ReaderKeepsContent(s, key, id, content);
      }
    case _ =>
      OthersKeep(s, a, id);
      KeptContent(s, Apply(s, a), id, content);
  }

  /** As long as the entry is not removed, its files hold what its clients have written last, whatever others do. */
  lemma {:induction false} ContentStays(s: State, actions: seq<Action>, id: string, content: map<nat, nat>)
    requires HasContent(s, id, content) && CanRun(s, actions) && Remains(s, actions, id)
    ensures HasContent(Run(s, actions), id, Content(s, actions, id, content))
    decreases |actions|
  {
    if actions != [] {
      StepGivesContent(s, actions[0], id, content);
      ContentStays(Apply(s, actions[0]), actions[1..], id, ContentAfter(s, actions[0], id, content));
    }
  }

  /** From an entry with no files, over any run that does not remove it: once it is unlocked, a read of a stream opens a
      reader if and only if the stream has been written, and finds the size that has been written last; any other read
      changes nothing. */
  lemma ReadsWhatWasWritten(s: State, actions: seq<Action>, id: string, index: nat)
    requires HasContent(s, id, map[]) && CanRun(s, actions) && Remains(s, actions, id)
    requires id in Run(s, actions).entries && Run(s, actions).entries[id].lockState == Unlocked
    ensures var s', key, content := Run(s, actions), Key(id, index), Content(s, actions, id, map[]);
      && Enabled(s', Read(key, true))
      && Apply(s', Read(key, true)) ==
        (if index !in content then s'
         else s'.(entries := s'.entries[id := s'.entries[id].(accessors := s'.entries[id].accessors + 1)],
                  totalAccessors := s'.totalAccessors + 1, handles := s'.handles + [Handle(key, false)]))
      && (index in content ==> key in s'.files && s'.files[key] == content[index])
  {
    ContentStays(s, actions, id, map[]);
    assert FileIs(Run(s, actions), id, Content(s, actions, id, map[]), index);
  }

  // ----- Storing a resource -----

  lemma {:induction false} RunBoth(s: State, a: seq<Action>, b: seq<Action>)
    requires CanRun(s, a) && CanRun(Run(s, a), b)
    ensures CanRun(s, a + b) && Run(s, a + b) == Run(Run(s, a), b)
    decreases |a|
  {
    if a == [] {
      assert a + b == b;
    } else {
      assert (a + b)[0] == a[0] && (a + b)[1..] == a[1..] + b;
      RunBoth(Apply(s, a[0]), a[1..], b);
    }
  }

  lemma RunOne(s: State, a: Action)
    requires Enabled(s, a)
    ensures CanRun(s, [a]) && Run(s, [a]) == Apply(s, a)
  {
    assert [a][1..] == [];
  }

  /** A client that writes one stream, when `h` streams are open: it opens the stream, writes, and closes it. */
  function StoreOne(h: nat, id: string, index: nat, size: nat): seq<Action> {
    [Write(Key(id, index), true)] + [Data(h, size)] + [Release(h, 0, [], {})]
  }

  function StoreAll(h: nat, id: string, index: nat, sizes: seq<nat>): seq<Action>
    decreases |sizes|
  {
    if sizes == [] then [] else StoreOne(h, id, index, sizes[0]) + StoreAll(h, id, index + 1, sizes[1..])
  }

  /** A client that stores a resource: it locks the entry, writes its streams, and unlocks it. */
  function Store(h: nat, id: string, sizes: seq<nat>, now: int): seq<Action> {
    [Lock(id, now, [], {})] + StoreAll(h, id, 0, sizes) + [Unlock(id, now, [], {})]
  }

  function Total(sizes: seq<nat>): nat {
    if sizes == [] then 0 else sizes[0] + Total(sizes[1..])
  }

  /** The state with one more stream of a locked entry. */
  function WithStream(s: State, id: string, size: nat): State
    requires id in s.entries
  {
    var e := s.entries[id];
    s.(entries := s.entries[id := e.(streams := e.streams + 1, size := e.size + size)],
       totalSize := s.totalSize + size, files := s.files[Key(id, e.streams) := size])
  }

  lemma WriterOf(s: State, id: string, size: nat)
    requires id in s.entries && s.entries[id].lockState == Locked && Key(id, s.entries[id].streams) !in s.files
    ensures var h, write := |s.handles|, Write(Key(id, s.entries[id].streams), true);
      && Enabled(s, write) && Enabled(Apply(s, write), Data(h, size))
      && Enabled(Apply(Apply(s, write), Data(h, size)), Release(h, 0, [], {}))
      && Apply(Apply(Apply(s, write), Data(h, size)), Release(h, 0, [], {})) == WithStream(s, id, size)
  {
    var h, key := |s.handles|, Key(id, s.entries[id].streams);
    var s2 := Apply(WriterOpened(s, key), Data(h, size));
    assert s2.files == s.files[key := size] && Dropped(s2.handles, h) == s.handles;
    NothingStuck(Released(s2, h, 0), Released(s2, h, 0));
    var e := WithStream(s, id, size).entries[id];
    assert s2.entries[id := e] == s.entries[id := e];
  }

  lemma StoreOneRuns(s: State, id: string, size: nat)
    requires id in s.entries && s.entries[id].lockState == Locked && Key(id, s.entries[id].streams) !in s.files
    ensures var actions := StoreOne(|s.handles|, id, s.entries[id].streams, size);
      CanRun(s, actions) && Run(s, actions) == WithStream(s, id, size)
  {
    var h, write := |s.handles|, Write(Key(id, s.entries[id].streams), true);
    WriterOf(s, id, size);
    RunOne(s, write);
    RunOne(Apply(s, write), Data(h, size));
    RunBoth(s, [write], [Data(h, size)]);
    RunOne(Run(s, [write] + [Data(h, size)]), Release(h, 0, [], {}));
    RunBoth(s, [write] + [Data(h, size)], [Release(h, 0, [], {})]);
  }

  /** From `s` to `s'` the streams from `index` on have been given files of these sizes; other files are the same. */
  ghost predicate HasFiles(s: State, s': State, id: string, index: nat, sizes: seq<nat>) {
    && (forall j | 0 <= j < |sizes| :: StreamIs(s', Key(id, index + j), sizes[j]))
    && forall key: Key | !(key.id == id && index <= key.index < index + |sizes|) :: SameFile(s, s', key)
  }

  predicate StreamIs(s: State, key: Key, size: nat) {
    key in s.files && s.files[key] == size
  }

  /** The state with `n` more streams of `total` bytes in a locked entry. */
  function WithStreams(s: State, id: string, n: nat, total: nat, files: map<Key, nat>): State
    requires id in s.entries
  {
    var e := s.entries[id];
    s.(entries := s.entries[id := e.(streams := e.streams + n, size := e.size + total)],
       totalSize := s.totalSize + total, files := files)
  }

  lemma OneStreamMore(s: State, id: string, size: nat, n: nat, total: nat, files: map<Key, nat>)
    requires id in s.entries
    ensures WithStreams(WithStream(s, id, size), id, n, total, files) == WithStreams(s, id, n + 1, size + total, files)
  {
    var s1 := WithStream(s, id, size);
    var e := WithStreams(s1, id, n, total, files).entries[id];
    assert s1.entries[id := e] == s.entries[id := e];
  }

  /** `actions` lead to the state with these streams in addition. */
  ghost predicate Stores(s: State, actions: seq<Action>, s': State, id: string, index: nat, sizes: seq<nat>) {
    && CanRun(s, actions) && Run(s, actions) == s' && id in s.entries
    && HasFiles(s, s', id, index, sizes) && s' == WithStreams(s, id, |sizes|, Total(sizes), s'.files)
  }

  lemma StoresOneMore(s: State, id: string, index: nat, sizes: seq<nat>, rest: seq<Action>, s': State)
    requires sizes != [] && id in s.entries && s.entries[id].lockState == Locked && s.entries[id].streams == index
    requires Key(id, index) !in s.files && Stores(WithStream(s, id, sizes[0]), rest, s', id, index + 1, sizes[1..])
    ensures Stores(s, StoreOne(|s.handles|, id, index, sizes[0]) + rest, s', id, index, sizes)
  {
    var first := StoreOne(|s.handles|, id, index, sizes[0]);
    assert CanRun(s, first + rest) && Run(s, first + rest) == s' by {
      StoreOneRuns(s, id, sizes[0]);
      RunBoth(s, first, rest);
    }
    assert HasFiles(s, s', id, index, sizes) by {
      FilesAddUp(s, WithStream(s, id, sizes[0]), s', id, index, sizes);
    }
    assert s' == WithStreams(s, id, |sizes|, Total(sizes), s'.files) by {
      OneStreamMore(s, id, sizes[0], |sizes| - 1, Total(sizes[1..]), s'.files);
    }
  }

  lemma NothingMore(s: State, id: string, index: nat)
    requires id in s.entries
    ensures Stores(s, [], s, id, index, [])
  {
    assert s.entries[id := s.entries[id]] == s.entries;
  }

  lemma NextStreamFree(s: State, id: string, index: nat, size: nat)
    requires id in s.entries && s.entries[id].lockState == Locked && s.entries[id].streams == index
    requires forall key | key in s.files && key.id == id :: key.index < index
    ensures var s1 := WithStream(s, id, size);
      && id in s1.entries && s1.entries[id].lockState == Locked && s1.entries[id].streams == index + 1
      && s1.handles == s.handles && Key(id, index) !in s.files
      && forall key | key in s1.files && key.id == id :: key.index < index + 1
  {
  }

  lemma {:induction false} StoreAllRuns(s: State, id: string, index: nat, sizes: seq<nat>) returns (s': State)
    requires id in s.entries && s.entries[id].lockState == Locked && s.entries[id].streams == index
    requires forall key | key in s.files && key.id == id :: key.index < index
    ensures Stores(s, StoreAll(|s.handles|, id, index, sizes), s', id, index, sizes)
    decreases |sizes|
  {
    if sizes == [] {
      s' := s;
      NothingMore(s, id, index);
    } else {
      NextStreamFree(s, id, index, sizes[0]);
      s' := StoreAllRuns(WithStream(s, id, sizes[0]), id, index + 1, sizes[1..]);
      StoresOneMore(s, id, index, sizes, StoreAll(|s.handles|, id, index + 1, sizes[1..]), s');
    }
  }

  lemma FilesAddUp(s: State, s1: State, s': State, id: string, index: nat, sizes: seq<nat>)
    requires sizes != [] && s1.files == s.files[Key(id, index) := sizes[0]]
    requires HasFiles(s1, s', id, index + 1, sizes[1..])
    ensures HasFiles(s, s', id, index, sizes)
  {
    forall j | 0 <= j < |sizes|
      ensures StreamIs(s', Key(id, index + j), sizes[j])
    {
      if j == 0 {
        assert SameFile(s1, s', Key(id, index));
      } else {
        assert StreamIs(s', Key(id, index + 1 + (j - 1)), sizes[1..][j - 1]);
      }
    }
    forall key: Key | !(key.id == id && index <= key.index < index + |sizes|)
      ensures SameFile(s, s', key)
    {
      assert SameFile(s1, s', key);
    }
  }

  /** The state after a new resource has been stored. */
  ghost predicate HasStored(s: State, s': State, id: string, sizes: seq<nat>, now: int) {
    && HasFiles(s, s', id, 0, sizes)
    && s' == s.(entries := s.entries[id := Entry(Unlocked, 0, Total(sizes), |sizes|, now)],
                totalSize := s.totalSize + Total(sizes), files := s'.files)
  }

  lemma StoreRuns(s: State, id: string, sizes: seq<nat>, now: int)
    requires id !in s.entries && (forall key | key in s.files :: key.id != id) && !Overfull(s)
    ensures var actions := Store(|s.handles|, id, sizes, now);
      CanRun(s, actions) && HasStored(s, Run(s, actions), id, sizes, now)
  {
    var lock, unlock := Lock(id, now, [], {}), Unlock(id, now, [], {});
    var store := StoreAll(|s.handles|, id, 0, sizes);
    var s1 := LockNew(s, id, now);
    var s2 := StoreAllRuns(s1, id, 0, sizes);
    UnlockStored(s2, id, now);
    RunOne(s, lock);
    RunOne(s2, unlock);
    RunBoth(s, [lock], store);
    RunBoth(s, [lock] + store, [unlock]);
    AfterUnlock(s, s1, s2, Apply(s2, unlock), id, sizes, now);
  }

  lemma AfterUnlock(s: State, s1: State, s2: State, s': State, id: string, sizes: seq<nat>, now: int)
    requires s1 == s.(entries := s.entries[id := Entry(Locked, 0, 0, 0, now)]) && HasFiles(s1, s2, id, 0, sizes)
    requires s2 == WithStreams(s1, id, |sizes|, Total(sizes), s2.files)
    requires s' == s2.(entries := s2.entries[id := s2.entries[id].(lockState := Unlocked, modified := now)])
    ensures HasStored(s, s', id, sizes, now)
  {
    assert s'.entries == s.entries[id := Entry(Unlocked, 0, Total(sizes), |sizes|, now)];
    forall j | 0 <= j < |sizes|
      ensures StreamIs(s', Key(id, 0 + j), sizes[j])
    {
      assert StreamIs(s2, Key(id, 0 + j), sizes[j]);
    }
    forall key: Key | !(key.id == id && 0 <= key.index < 0 + |sizes|)
      ensures SameFile(s, s', key)
    {
      assert SameFile(s1, s2, key);
    }
  }

  /** A new resource that fits: storing it is possible, evicts nothing, and leaves an unlocked entry with all its
      streams and an account of their sizes; a read of each stream then opens a reader on a file of the size written,
      and a read of any other stream changes nothing. */
  lemma StoredCanBeRead(s: State, id: string, sizes: seq<nat>, now: int, index: nat)
    requires id !in s.entries && (forall key | key in s.files :: key.id != id)
    requires s.totalSize + Total(sizes) <= s.maxCache
    ensures var actions, read := Store(|s.handles|, id, sizes, now), Read(Key(id, index), true);
      && CanRun(s, actions) && Enabled(Run(s, actions), read)
      && var s', s'' := Run(s, actions), Apply(Run(s, actions), read);
        && !Overfull(s') && HasStored(s, s', id, sizes, now)
        && if index >= |sizes| then s'' == s' else
          && StreamIs(s'', Key(id, index), sizes[index])
          && s'' == s'.(
            entries := s.entries[id := Entry(Unlocked, 1, Total(sizes), |sizes|, now)],
            totalAccessors := s.totalAccessors + 1, handles := s.handles + [Handle(Key(id, index), false)])
  {
    StoreRuns(s, id, sizes, now);
    ReadStored(s, Run(s, Store(|s.handles|, id, sizes, now)), id, sizes, now, index);
  }

  lemma ReadStored(s: State, s': State, id: string, sizes: seq<nat>, now: int, index: nat)
    requires HasStored(s, s', id, sizes, now) && forall key | key in s.files :: key.id != id
    ensures Enabled(s', Read(Key(id, index), true))
    ensures var s'' := Apply(s', Read(Key(id, index), true));
      if index >= |sizes| then s'' == s' else
        && StreamIs(s'', Key(id, index), sizes[index])
        && s'' == s'.(entries := s.entries[id := Entry(Unlocked, 1, Total(sizes), |sizes|, now)],
                      totalAccessors := s.totalAccessors + 1, handles := s.handles + [Handle(Key(id, index), false)])
  {
    if index < |sizes| {
      assert StreamIs(s', Key(id, 0 + index), sizes[index]);
      var e := Entry(Unlocked, 1, Total(sizes), |sizes|, now);
      assert s'.entries[id := e] == s.entries[id := e];
    }
  }

  lemma LockNew(s: State, id: string, now: int) returns (s1: State)
    requires id !in s.entries && !Overfull(s)
    ensures Enabled(s, Lock(id, now, [], {})) && Apply(s, Lock(id, now, [], {})) == s1
    ensures s1 == s.(entries := s.entries[id := Entry(Locked, 0, 0, 0, now)])
  {
    s1 := s.(entries := s.entries[id := Entry(Locked, 0, 0, 0, now)]);
    NothingStuck(Created(s, id, now), Created(s, id, now));
    assert Created(s, id, now).entries[id := s1.entries[id]] == s1.entries;
  }

  lemma UnlockStored(s: State, id: string, now: int)
    requires id in s.entries && s.entries[id].lockState == Locked && s.entries[id].accessors == 0
    ensures Enabled(s, Unlock(id, now, [], {}))
    ensures Apply(s, Unlock(id, now, [], {})) ==
      s.(entries := s.entries[id := s.entries[id].(lockState := Unlocked, modified := now)])
  {
    NothingStuck(UnlockedEntry(s, id, now), UnlockedEntry(s, id, now));
  }

  // ----- What a lock is worth -----

  /** Somebody reads the entry. */
  predicate Reading(s: State, id: string) {
    exists i | 0 <= i < |s.handles| :: s.handles[i].key.id == id && !s.handles[i].writer
  }

  /** With room in the cache, LockResource is granted if and only if nobody has the entry locked and nobody reads it. */
  lemma GrantedExactly(s: State, id: string, now: int)
    requires Accounts(s) && !Overfull(s)
    ensures Enabled(s, Lock(id, now, [], {}))
    ensures LockOutcome(Created(s, id, now), id, [], {}).0 ==
      if (id in s.entries && s.entries[id].lockState == Locked) || Reading(s, id) then Refused else Granted
  {
    NothingStuck(Created(s, id, now), Created(s, id, now));
    ReadingIsOpen(s, id);
  }

  lemma ReadingIsOpen(s: State, id: string)
    requires Accounts(s)
    ensures Reading(s, id) <==> id in s.entries && s.entries[id].lockState == Unlocked && s.entries[id].accessors > 0
  {
    CountNone(s.handles, id);
    if id in s.entries {
      assert EntryOk(s, id);
    }
    forall i | 0 <= i < |s.handles| && s.handles[i].key.id == id
      ensures id in s.entries && (s.handles[i].writer <==> s.entries[id].lockState != Unlocked)
    {
      assert HandleOk(s, i);
    }
  }

  ghost predicate HasLock(s: State, id: string) {
    id in s.entries && s.entries[id].lockState == Locked
  }

  lemma LockStays(s: State, a: Action, id: string)
    requires HasLock(s, id) && Enabled(s, a) && !(a.Unlock? && a.id == id)
    ensures HasLock(Apply(s, a), id)
  {
    match a
    case Lock(i, now, victims, _) => EvictionSpares(Created(s, i, now), victims);
    case Write(_, _) =>
    case Data(_, _) =>
    case Unlock(i, now, victims, _) =>
      if s.entries[i].lockState == Locked {
        EvictionSpares(UnlockedEntry(s, i, now), victims);
      }
    case Read(_, _) =>
    case Release(i, now, victims, _) => EvictionSpares(Released(s, i, now), victims);
    case Delete(_, _) =>
  }

  /** Over every run without an UnlockResource of it a locked entry stays there and stays locked; so no other lock of it
      is granted, and nobody reads it. */
  lemma {:induction false} LockHolds(s: State, actions: seq<Action>, id: string)
    requires Accounts(s) && HasLock(s, id) && CanRun(s, actions)
    requires forall a | a in actions :: !(a.Unlock? && a.id == id)
    ensures var s' := Run(s, actions); HasLock(s', id) && !Reading(s', id)
    decreases |actions|
  {
    if actions == [] {
      ReadingIsOpen(s, id);
    } else {
      LockStays(s, actions[0], id);
      ApplyKeeps(s, actions[0]);
      LockHolds(Apply(s, actions[0]), actions[1..], id);
    }
  }

  // ----- The times that the choice of what to evict goes by -----

  /** What a call has done to the time of an entry that is there after it. */
  predicate TimeIs(s: State, a: Action, e: Entry, id: string) {
    if id !in s.entries then a.Lock? && e.modified == a.now
    else if s.entries[id].lockState != Unlocked && e.lockState == Unlocked then
      (a.Unlock? || a.Release?) && e.modified == a.now
    else e.modified == s.entries[id].modified
  }

  lemma LockTime(s: State, i: string, now: int, victims: seq<string>, stuck: set<Key>, id: string)
    requires Enabled(s, Lock(i, now, victims, stuck)) && id in Apply(s, Lock(i, now, victims, stuck)).entries
    ensures TimeIs(s, Lock(i, now, victims, stuck), Apply(s, Lock(i, now, victims, stuck)).entries[id], id)
  {
    CleanedUp(Created(s, i, now), victims, stuck, id);
  }

  lemma UnlockTime(s: State, i: string, now: int, victims: seq<string>, stuck: set<Key>, id: string)
    requires Enabled(s, Unlock(i, now, victims, stuck)) && id in Apply(s, Unlock(i, now, victims, stuck)).entries
    ensures TimeIs(s, Unlock(i, now, victims, stuck), Apply(s, Unlock(i, now, victims, stuck)).entries[id], id)
  {
    if s.entries[i].lockState == Locked {
      CleanedUp(UnlockedEntry(s, i, now), victims, stuck, id);
    }
  }

  lemma ReleaseTime(s: State, i: nat, now: int, victims: seq<string>, stuck: set<Key>, id: string)
    requires Enabled(s, Release(i, now, victims, stuck)) && id in Apply(s, Release(i, now, victims, stuck)).entries
    ensures TimeIs(s, Release(i, now, victims, stuck), Apply(s, Release(i, now, victims, stuck)).entries[id], id)
  {
    CleanedUp(Released(s, i, now), victims, stuck, id);
  }

  /** The time of an entry is that of the call of LockResource that has made it, or of the call of UnlockResource or
      ReleaseResource that has unlocked it since; no other call changes it. */
  lemma TimeOfUnlocking(s: State, a: Action, id: string)
    requires Enabled(s, a) && id in Apply(s, a).entries
    ensures TimeIs(s, a, Apply(s, a).entries[id], id)
  {
    match a
    case Lock(i, now, victims, stuck) => LockTime(s, i, now, victims, stuck, id);
    case Write(_, _) =>
    case Data(_, _) =>
    case Unlock(i, now, victims, stuck) => UnlockTime(s, i, now, victims, stuck, id);
    case Read(_, _) =>
    case Release(i, now, victims, stuck) => ReleaseTime(s, i, now, victims, stuck, id);
    case Delete(_, _) =>
  }
}
