/** Runs of the disk cache after which something is not as one would expect. */
module CacheFindings {
  import opened CacheChoice
  import opened CacheLimit
  import opened CacheRuns
  import opened CacheState
  import FileNames

  const A: Key := Key("a", 0)

  ghost predicate Reaches(s: State, actions: seq<Action>, end: State) {
    CanRun(s, actions) && Run(s, actions) == end
  }

  lemma FirstThen(s: State, a: Action, s': State, actions: seq<Action>, end: State) returns (all: seq<Action>)
    requires Enabled(s, a) && Apply(s, a) == s' && Reaches(s', actions, end)
    ensures Reaches(s, all, end)
  {
    all := [a] + actions;
    assert all[1..] == actions;
  }

  // ----- Two writers on one stream: counted twice -----

  /** One entry that is locked, with `handles` open on its streams, and its files. */
  function OneEntry(size: nat, streams: nat, handles: seq<Handle>, files: map<Key, nat>): State {
    State(map[A.id := Entry(Locked, |handles|, size, streams, 0)], 100, size, |handles|, handles, files)
  }

  lemma LockOne()
    ensures Enabled(Empty(100), Lock(A.id, 0, [], {}))
    ensures Apply(Empty(100), Lock(A.id, 0, [], {})) == OneEntry(0, 0, [], map[])
  {
    NothingStuck(Created(Empty(100), A.id, 0), Created(Empty(100), A.id, 0));
  }

  lemma WriteOne(streams: nat, handles: seq<Handle>, files: map<Key, nat>)
    requires streams <= 1 && files.Keys <= {A}
    ensures Enabled(OneEntry(0, streams, handles, files), Write(A, true))
    ensures Apply(OneEntry(0, streams, handles, files), Write(A, true)) ==
      OneEntry(0, 1, handles + [Handle(A, true)], map[A := 0])
  {
  }

  lemma ReleaseOne(size: nat, streams: nat, handles: seq<Handle>, files: map<Key, nat>)
    requires handles != [] && handles[0].key.id == A.id && handles[0].key in files
    ensures Enabled(OneEntry(size, streams, handles, files), Release(0, 0, [], {}))
    ensures Apply(OneEntry(size, streams, handles, files), Release(0, 0, [], {})) ==
      OneEntry(size + files[handles[0].key], streams, handles[1..], files)
  {
    assert Dropped(handles, 0) == handles[1..];
    var s := OneEntry(size, streams, handles, files);
    NothingStuck(s, Released(s, 0, 0));
  }

  lemma DataOne(size: nat, streams: nat, handles: seq<Handle>, files: map<Key, nat>, n: nat)
    requires handles != [] && handles[0].writer
    ensures Enabled(OneEntry(size, streams, handles, files), Data(0, n))
    ensures Apply(OneEntry(size, streams, handles, files), Data(0, n)) ==
      OneEntry(size, streams, handles, files[handles[0].key := n])
  {
  }

  lemma TwoReleases() returns (actions: seq<Action>)
    ensures Reaches(OneEntry(0, 1, [Handle(A, true), Handle(A, true)], map[A := 5]), actions,
                    OneEntry(10, 1, [], map[A := 5]))
  {
    var w, end := Handle(A, true), OneEntry(10, 1, [], map[A := 5]);
    ReleaseOne(0, 1, [w, w], map[A := 5]);
    ReleaseOne(5, 1, [w], map[A := 5]);
    assert Reaches(end, [], end) && [w][1..] == [] && [w, w][1..] == [w];
    actions := FirstThen(OneEntry(5, 1, [w], map[A := 5]), Release(0, 0, [], {}), end, [], end);
    actions := FirstThen(OneEntry(0, 1, [w, w], map[A := 5]), Release(0, 0, [], {}),
                         OneEntry(5, 1, [w], map[A := 5]), actions, end);
  }

  /** With two writers on one stream the file is counted twice: five bytes on disk make a size of ten. */
  lemma TwoWritersMiscount()
    ensures exists actions :: Reaches(Empty(100), actions, OneEntry(10, 1, [], map[A := 5]))
  {
    var w, end := Handle(A, true), OneEntry(10, 1, [], map[A := 5]);
    LockOne();
    WriteOne(0, [], map[]);
    WriteOne(1, [w], map[A := 0]);
    DataOne(0, 1, [w, w], map[A := 0], 5);
    assert map[A := 0][A := 5] == map[A := 5];
    var actions := TwoReleases();
    assert [] + [w] == [w] && [w] + [w] == [w, w];
    actions := FirstThen(OneEntry(0, 1, [w, w], map[A := 0]), Data(0, 5),
                         OneEntry(0, 1, [w, w], map[A := 5]), actions, end);
    actions := FirstThen(OneEntry(0, 1, [w], map[A := 0]), Write(A, true),
                         OneEntry(0, 1, [w, w], map[A := 0]), actions, end);
    actions := FirstThen(OneEntry(0, 0, [], map[]), Write(A, true), OneEntry(0, 1, [w], map[A := 0]), actions, end);
    actions := FirstThen(Empty(100), Lock(A.id, 0, [], {}), OneEntry(0, 0, [], map[]), actions, end);
  }

  /** The entry "a" is created, `n` bytes are written to it, and its stream is closed. */
  lemma OneFills(n: nat, actions: seq<Action>, end: State) returns (all: seq<Action>)
    requires Reaches(OneEntry(n, 1, [], map[A := n]), actions, end)
    ensures Reaches(Empty(100), all, end)
  {
    var w := Handle(A, true);
    LockOne();
    WriteOne(0, [], map[]);
    DataOne(0, 1, [w], map[A := 0], n);
    ReleaseOne(0, 1, [w], map[A := n]);
    assert [] + [w] == [w] && [w][1..] == [] && map[A := 0][A := n] == map[A := n];
    all := FirstThen(OneEntry(0, 1, [w], map[A := n]), Release(0, 0, [], {}),
                     OneEntry(n, 1, [], map[A := n]), actions, end);
    all := FirstThen(OneEntry(0, 1, [w], map[A := 0]), Data(0, n), OneEntry(0, 1, [w], map[A := n]), all, end);
    all := FirstThen(OneEntry(0, 0, [], map[]), Write(A, true), OneEntry(0, 1, [w], map[A := 0]), all, end);
    all := FirstThen(Empty(100), Lock(A.id, 0, [], {}), OneEntry(0, 0, [], map[]), all, end);
  }

  // ----- Two writers on one stream: taken off without having been counted -----

  const A1: Key := Key("a", 1)

  const W1: Handle := Handle(A1, true)

  /** A writer that is opened on the second stream takes off what that holds. */
  lemma WriteNext(size: nat, streams: nat, handles: seq<Handle>, files: map<Key, nat>, n: nat)
    requires 1 <= streams <= 2 && n <= size && n == if A1 in files then files[A1] else 0
    ensures Enabled(OneEntry(size, streams, handles, files), Write(A1, true))
    ensures Apply(OneEntry(size, streams, handles, files), Write(A1, true)) ==
      OneEntry(size - n, 2, handles + [W1], files[A1 := 0])
  {
  }

  lemma TwoEmptyReleases() returns (actions: seq<Action>)
    ensures Reaches(OneEntry(2, 2, [W1, W1], map[A := 5, A1 := 0]), actions,
                    OneEntry(2, 2, [], map[A := 5, A1 := 0]))
  {
    var files := map[A := 5, A1 := 0];
    var end := OneEntry(2, 2, [], files);
    ReleaseOne(2, 2, [W1, W1], files);
    ReleaseOne(2, 2, [W1], files);
    assert Reaches(end, [], end) && [W1][1..] == [] && [W1, W1][1..] == [W1];
    actions := FirstThen(OneEntry(2, 2, [W1], files), Release(0, 0, [], {}), end, [], end);
    actions := FirstThen(OneEntry(2, 2, [W1, W1], files), Release(0, 0, [], {}),
                         OneEntry(2, 2, [W1], files), actions, end);
  }

  /** A second writer takes off the three bytes that the first has written and that do not count yet: five bytes on disk
      make a size of two, although both writers leave their file empty. */
  lemma TwoWritersUndercount()
    ensures exists actions :: Reaches(Empty(100), actions, OneEntry(2, 2, [], map[A := 5, A1 := 0]))
  {
    var one, three, end := map[A := 5], map[A := 5, A1 := 3], OneEntry(2, 2, [], map[A := 5, A1 := 0]);
    WriteNext(5, 1, [], one, 0);
    DataOne(5, 2, [W1], map[A := 5, A1 := 0], 3);
    WriteNext(5, 2, [W1], three, 3);
    assert one[A1 := 0] == map[A := 5, A1 := 0] == three[A1 := 0] && map[A := 5, A1 := 0][A1 := 3] == three;
    assert [] + [W1] == [W1] && [W1] + [W1] == [W1, W1];
    var actions := TwoEmptyReleases();
    actions := FirstThen(OneEntry(5, 2, [W1], three), Write(A1, true),
                         OneEntry(2, 2, [W1, W1], map[A := 5, A1 := 0]), actions, end);
    actions := FirstThen(OneEntry(5, 2, [W1], map[A := 5, A1 := 0]), Data(0, 3),
                         OneEntry(5, 2, [W1], three), actions, end);
    actions := FirstThen(OneEntry(5, 1, [], one), Write(A1, true),
                         OneEntry(5, 2, [W1], map[A := 5, A1 := 0]), actions, end);
    actions := OneFills(5, actions, end);
  }

  // ----- A file that could not be deleted -----

  /** The file of an entry that has gone. */
  function OnlyFile(): State {
    State(map[], 100, 0, 0, [], map[A := 5])
  }

  function IdleFive(): State {
    State(map[A.id := Entry(Unlocked, 0, 5, 1, 0)], 100, 5, 0, [], map[A := 5])
  }

  lemma UnlockFive()
    ensures Enabled(OneEntry(5, 1, [], map[A := 5]), Unlock(A.id, 0, [], {}))
    ensures Apply(OneEntry(5, 1, [], map[A := 5]), Unlock(A.id, 0, [], {})) == IdleFive()
  {
    NothingStuck(OneEntry(5, 1, [], map[A := 5]), UnlockedEntry(OneEntry(5, 1, [], map[A := 5]), A.id, 0));
  }

  lemma DeleteStuck()
    ensures Enabled(IdleFive(), Delete(A.id, {A})) && Apply(IdleFive(), Delete(A.id, {A})) == OnlyFile()
  {
    assert Deleted(IdleFive(), A.id).files == map[] && StuckFiles(map[A := 5], {A}) == map[A := 5];
  }

  lemma LockAgain()
    ensures Enabled(OnlyFile(), Lock(A.id, 0, [], {}))
    ensures Apply(OnlyFile(), Lock(A.id, 0, [], {})) == OneEntry(0, 0, [], map[A := 5])
  {
    NothingStuck(Created(OnlyFile(), A.id, 0), Created(OnlyFile(), A.id, 0));
  }

  lemma WriteSecondStream()
    ensures Enabled(OneEntry(0, 0, [], map[A := 5]), Write(A1, true))
    ensures Apply(OneEntry(0, 0, [], map[A := 5]), Write(A1, true)) == OneEntry(0, 2, [W1], map[A := 5, A1 := 0])
  {
    assert [] + [W1] == [W1];
  }

  /** The file of a deleted resource could not be deleted.  When the resource is stored again, in its second stream
      only, the five bytes of the old file belong to it, and count for nothing. */
  lemma LeftoverMiscount()
    ensures exists actions :: Reaches(Empty(100), actions, OneEntry(0, 2, [], map[A := 5, A1 := 0]))
  {
    var files := map[A := 5, A1 := 0];
    var end := OneEntry(0, 2, [], files);
    assert Reaches(end, [], end) && [W1][1..] == [];
    ReleaseOne(0, 2, [W1], files);
    var actions := FirstThen(OneEntry(0, 2, [W1], files), Release(0, 0, [], {}), end, [], end);
    WriteSecondStream();
    actions := FirstThen(OneEntry(0, 0, [], map[A := 5]), Write(A1, true), OneEntry(0, 2, [W1], files), actions, end);
    LockAgain();
    actions := FirstThen(OnlyFile(), Lock(A.id, 0, [], {}), OneEntry(0, 0, [], map[A := 5]), actions, end);
    DeleteStuck();
    actions := FirstThen(IdleFive(), Delete(A.id, {A}), OnlyFile(), actions, end);
    UnlockFive();
    actions := FirstThen(OneEntry(5, 1, [], map[A := 5]), Unlock(A.id, 0, [], {}), IdleFive(), actions, end);
    actions := OneFills(5, actions, end);
  }

  // ----- A run after which LockResource can lose the entry that it locks, or gives up for no reason -----

  const B: Key := Key("b", 0)

  /** Entry "a" is idle since `t`, with sixty bytes, and "b" is locked since `u`. */
  function WithSecond(t: int, u: int, size: nat, streams: nat, handles: seq<Handle>, files: map<Key, nat>): State {
    State(map[A.id := Entry(Unlocked, 0, 60, 1, t), B.id := Entry(Locked, |handles|, size, streams, u)], 100, 60 + size,
          |handles|, handles, files)
  }

  /** Sixty bytes in each. */
  function BothFull(t: int, u: int): State {
    WithSecond(t, u, 60, 1, [], map[A := 60, B := 60])
  }

  function IdleOne(t: int): State {
    State(map[A.id := Entry(Unlocked, 0, 60, 1, t)], 100, 60, 0, [], map[A := 60])
  }

  lemma UnlockOne(t: int)
    ensures Enabled(OneEntry(60, 1, [], map[A := 60]), Unlock(A.id, t, [], {}))
    ensures Apply(OneEntry(60, 1, [], map[A := 60]), Unlock(A.id, t, [], {})) == IdleOne(t)
  {
    NothingStuck(OneEntry(60, 1, [], map[A := 60]), UnlockedEntry(OneEntry(60, 1, [], map[A := 60]), A.id, t));
  }

  lemma LockSecond(t: int, u: int)
    ensures Enabled(IdleOne(t), Lock(B.id, u, [], {}))
    ensures Apply(IdleOne(t), Lock(B.id, u, [], {})) == WithSecond(t, u, 0, 0, [], map[A := 60])
  {
    NothingStuck(Created(IdleOne(t), B.id, u), Created(IdleOne(t), B.id, u));
  }

  lemma WriteSecond(t: int, u: int)
    ensures Enabled(WithSecond(t, u, 0, 0, [], map[A := 60]), Write(B, true))
    ensures Apply(WithSecond(t, u, 0, 0, [], map[A := 60]), Write(B, true)) ==
      WithSecond(t, u, 0, 1, [Handle(B, true)], map[A := 60, B := 0])
  {
  }

  lemma DataSecond(t: int, u: int)
    ensures Enabled(WithSecond(t, u, 0, 1, [Handle(B, true)], map[A := 60, B := 0]), Data(0, 60))
    ensures Apply(WithSecond(t, u, 0, 1, [Handle(B, true)], map[A := 60, B := 0]), Data(0, 60)) ==
      WithSecond(t, u, 0, 1, [Handle(B, true)], map[A := 60, B := 60])
  {
  }

  lemma ReleaseSecond(t: int, u: int)
    ensures Enabled(WithSecond(t, u, 0, 1, [Handle(B, true)], map[A := 60, B := 60]), Release(0, u, [], {}))
    ensures Apply(WithSecond(t, u, 0, 1, [Handle(B, true)], map[A := 60, B := 60]), Release(0, u, [], {})) ==
      BothFull(t, u)
  {
    assert Dropped([Handle(B, true)], 0) == [];
    var s := WithSecond(t, u, 0, 1, [Handle(B, true)], map[A := 60, B := 60]);
    NothingStuck(s, Released(s, 0, u));
  }

  lemma SecondFills(t: int, u: int) returns (actions: seq<Action>)
    ensures Reaches(IdleOne(t), actions, BothFull(t, u))
  {
    var w, end := Handle(B, true), BothFull(t, u);
    assert Reaches(end, [], end);
    ReleaseSecond(t, u);
    actions := FirstThen(WithSecond(t, u, 0, 1, [w], map[A := 60, B := 60]), Release(0, u, [], {}), end, [], end);
    DataSecond(t, u);
    actions := FirstThen(WithSecond(t, u, 0, 1, [w], map[A := 60, B := 0]), Data(0, 60),
                         WithSecond(t, u, 0, 1, [w], map[A := 60, B := 60]), actions, end);
    WriteSecond(t, u);
    actions := FirstThen(WithSecond(t, u, 0, 0, [], map[A := 60]), Write(B, true),
                         WithSecond(t, u, 0, 1, [w], map[A := 60, B := 0]), actions, end);
    LockSecond(t, u);
    actions := FirstThen(IdleOne(t), Lock(B.id, u, [], {}), WithSecond(t, u, 0, 0, [], map[A := 60]), actions, end);
  }

  lemma BothCanFill(t: int, u: int)
    ensures exists actions :: Reaches(Empty(100), actions, BothFull(t, u))
  {
    var end := BothFull(t, u);
    var actions := SecondFills(t, u);
    UnlockOne(t);
    actions := FirstThen(OneEntry(60, 1, [], map[A := 60]), Unlock(A.id, t, [], {}), IdleOne(t), actions, end);
    actions := OneFills(60, actions, end);
  }

  lemma ListingOfBoth()
    ensures Listing({"a", "b"}) == ["a", "b"]
  {
    assert FileNames.Sorted(["a", "b"]);
    FileNames.SortedIsUnique(Listing({"a", "b"}), ["a", "b"]);
  }

  lemma ChooseOfBoth(t: int, u: int)
    ensures Choose(BothFull(t, u).entries) == Tries(if t < u then "a" else "b")
  {
    var entries := BothFull(t, u).entries;
    ListingOfBoth();
    assert entries.Keys == {"a", "b"};
    var order := ["a", "b"];
    assert FirstIdle(entries, order) == 0;
    assert Scan(entries, order, 1, 0) == (if u < t then 1 else 0) && Scan(entries, order, 1, 1) == 1;
  }

  /** Sixty bytes are stored in "a" and sixty in "b", which stays locked.  If "a" was unlocked before "b" was created,
      locking "a" evicts "a"; if that was in the same second, locking "a" fails, although evicting "a" would be enough
      for any other entry to be locked. */
  lemma LockCanLose(t: int, u: int)
    requires t <= u
    ensures var s := BothFull(t, u); var (limit, victims) := LimitWith(s, {});
      && (exists actions :: Reaches(Empty(100), actions, s))
      && Evictable(s, victims) && LockOutcome(s, A.id, victims, {}).0 == (if t < u then EntryLost else Refused)
      && (t == u ==> limit == InUse(B.id) && LeastLeft(s) <= s.maxCache)
  {
    var s := BothFull(t, u);
    BothCanFill(t, u);
    LimitOfBoth(t, u);
    StuckExactly(s, {});
    LostIfEvicted(s, A.id, {});
    LimitEvicts(s);
    SumRemove(IdleSizes(s.entries), A.id);
  }

  lemma LimitOfBoth(t: int, u: int)
    ensures Limit(BothFull(t, u)) == if t < u then (Within, [A.id]) else (InUse(B.id), [])
  {
    var s := BothFull(t, u);
    ChooseOfBoth(t, u);
    if t < u {
      assert !Overfull(Deleted(s, A.id));
      assert Limit(s) == (Within, [A.id] + []) && [A.id] + [] == [A.id];
    } else {
      assert Choose(s.entries) == Tries(B.id) && !Idle(s.entries[B.id]);
    }
  }

  // ----- A run after which CheckLimit leaves the map -----

  lemma OnlyEntry(s: State, id: string)
    requires s.entries.Keys == {id} && IsIdle(s, id) && Overfull(s)
    ensures Limit(s) == (OffTheMap, [])
  {
    assert FileNames.Sorted([id]);
    FileNames.SortedIsUnique(Listing({id}), [id]);
    assert FirstIdle(s.entries, [id]) == 0;
  }

  /** A single entry that is larger than the cache may be: when it is unlocked, CheckLimit compares its time with that
      of an entry behind the last one. */
  lemma LargeEntryLeavesTheMap(n: nat, t: int)
    requires n > 100
    ensures var s := OneEntry(n, 1, [], map[A := n]);
      && (exists actions :: Reaches(Empty(100), actions, s))
      && UnlockEvicts(s, A.id) && Limit(UnlockedEntry(s, A.id, t)) == (OffTheMap, [])
  {
    var s := OneEntry(n, 1, [], map[A := n]);
    assert Reaches(s, [], s);
    var actions := OneFills(n, [], s);
    OnlyEntry(UnlockedEntry(s, A.id, t), A.id);
  }
}
