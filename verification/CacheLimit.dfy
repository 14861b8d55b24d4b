/** How CheckLimit ends, and what it evicts, told from the state before the call. */
module CacheLimit {
  import opened CacheChoice
  import opened CacheState
  import FileNames

  // ----- What eviction would leave -----

  /** The sizes of the idle entries that were last modified before `t`. */
  function OlderSizes(entries: map<string, Entry>, t: int): map<string, nat> {
    map id | id in entries :: if Idle(entries[id]) && entries[id].modified < t then entries[id].size else 0
  }

  /** What would be left if the idle entries that were last modified before `t` went; with t + 1 for t, those that were
      modified at `t` go, too. */
  ghost function Left(s: State, t: int): int {
    s.totalSize - Sum(OlderSizes(s.entries, t))
  }

  /** What would be left if all idle entries went. */
  ghost function LeastLeft(s: State): int {
    s.totalSize - Sum(IdleSizes(s.entries))
  }

  lemma LeftAfter(s: State, id: string, t: int)
    requires IsIdle(s, id)
    ensures Left(Deleted(s, id), t) == Left(s, t) - if s.entries[id].modified < t then 0 else s.entries[id].size
    ensures LeastLeft(Deleted(s, id)) == LeastLeft(s)
  {
    var entries := Deleted(s, id).entries;
    assert OlderSizes(entries, t) == OlderSizes(s.entries, t) - {id};
    assert IdleSizes(entries) == IdleSizes(s.entries) - {id};
    SumRemove(OlderSizes(s.entries, t), id);
    SumRemove(IdleSizes(s.entries), id);
  }

  /** If no idle entry was modified before `t`, nothing goes. */
  lemma NothingOlder(s: State, t: int)
    requires forall id | id in s.entries && Idle(s.entries[id]) :: s.entries[id].modified >= t
    ensures Left(s, t) == s.totalSize
  {
    ZeroSum(OlderSizes(s.entries, t));
  }

  /** If `z` alone is idle, it alone can go. */
  lemma OnlyIdle(s: State, z: string)
    requires IsIdle(s, z) && forall id | id in s.entries && Idle(s.entries[id]) :: id == z
    ensures LeastLeft(s) == s.totalSize - s.entries[z].size
  {
    SumRemove(IdleSizes(s.entries), z);
    ZeroSum(IdleSizes(s.entries) - {z});
  }

  lemma LeftAtMost(s: State, t: int)
    ensures Left(s, t) <= s.totalSize
  {
  }

  lemma AtLeastOne(s: State, id: string, t: int)
    requires IsIdle(s, id)
    ensures s.entries[id].modified < t ==> Left(s, t) + s.entries[id].size <= s.totalSize
    ensures LeastLeft(s) + s.entries[id].size <= s.totalSize
  {
    SumRemove(OlderSizes(s.entries, t), id);
    SumRemove(IdleSizes(s.entries), id);
  }

  // ----- What the scan tells about an idle entry, and about one behind it -----

  lemma IdleIsEligible(entries: map<string, Entry>, id: string)
    requires id in entries && Idle(entries[id])
    ensures Eligible(entries, id)
  {
  }

  /** With an idle entry there is one to try, unless the scan leaves the map, and none older than it is passed by. */
  lemma TriesNoNewer(s: State, i: string)
    requires IsIdle(s, i)
    ensures match Choose(s.entries)
      case Nobody => false
      case PastEnd => true
      case Tries(id) => id in s.entries && s.entries[id].modified <= s.entries[i].modified
  {
    IdleIsEligible(s.entries, i);
    ChoiceIsOldest(s.entries);
  }

  /** Behind an idle entry `i`: the scan looks at `b`, too. */
  lemma TriesNoNewerBehind(s: State, b: string, i: string)
    requires IsIdle(s, i) && b in s.entries && FileNames.Before(i, b)
    ensures Choose(s.entries).Tries? && Choose(s.entries).id in s.entries
    ensures s.entries[Choose(s.entries).id].modified <= s.entries[b].modified
  {
    FileNames.BeforeIrreflexive(i);
    IdleIsEligible(s.entries, i);
    assert Eligible(s.entries, b);
    ChoiceIsOldest(s.entries);
  }

  lemma LastAlone(s: State) returns (z: string)
    requires Choose(s.entries) == PastEnd
    ensures IsIdle(s, z) && (forall j | IsIdle(s, j) :: j == z)
    ensures forall b | b in s.entries :: !FileNames.Before(z, b)
  {
    ChoiceIsOldest(s.entries);
    z :| z in s.entries && Idle(s.entries[z]) && forall j | Eligible(s.entries, j) :: j == z;
    forall j | IsIdle(s, j)
      ensures j == z
    {
      IdleIsEligible(s.entries, j);
    }
    forall b | b in s.entries
      ensures !FileNames.Before(z, b)
    {
      FileNames.BeforeIrreflexive(z);
      assert FileNames.Before(z, b) ==> Eligible(s.entries, b);
    }
  }

  /** One that is tried is idle, or follows one that is. */
  lemma TriedFollows(s: State) returns (i: string)
    requires Choose(s.entries).Tries?
    ensures Choose(s.entries).id in s.entries && IsIdle(s, i)
    ensures i == Choose(s.entries).id || FileNames.Before(i, Choose(s.entries).id)
  {
    ChoiceIsOldest(s.entries);
    var id := Choose(s.entries).id;
    i :| i in s.entries && Idle(s.entries[i]) && (i == id || FileNames.Before(i, id));
  }

  /** There is another one that the scan could have taken. */
  lemma TriedHasOther(s: State) returns (e: string, i: string)
    requires Choose(s.entries).Tries?
    ensures e in s.entries && e != Choose(s.entries).id && IsIdle(s, i) && (i == e || FileNames.Before(i, e))
  {
    ChoiceIsOldest(s.entries);
    e :| Eligible(s.entries, e) && e != Choose(s.entries).id;
    i :| i in s.entries && Idle(s.entries[i]) && (i == e || FileNames.Before(i, e));
  }

  // ----- The order of eviction -----

  /** How CheckLimit begins. */
  lemma LimitStep(s: State) returns (id: string)
    requires Limit(s).1 != []
    ensures Overfull(s) && Choose(s.entries) == Tries(id) && IsIdle(s, id)
    ensures |Deleted(s, id).entries| < |s.entries|
    ensures var (result, victims) := Limit(Deleted(s, id)); Limit(s) == (result, [id] + victims)
    ensures forall i | IsIdle(s, i) :: s.entries[id].modified <= s.entries[i].modified
  {
    id := Choose(s.entries).id;
    ChoiceIsOldest(s.entries);
    FewerEntries(s.entries, id);
    forall i | IsIdle(s, i)
      ensures s.entries[id].modified <= s.entries[i].modified
    {
      TriesNoNewer(s, i);
    }
  }

  /** How it ends when nothing goes. */
  lemma LimitEnds(s: State)
    requires Limit(s).1 == []
    ensures Limit(s).0 ==
      if !Overfull(s) then Within
      else
        match Choose(s.entries)
        case Nobody => AllBusy
        case PastEnd => OffTheMap
        case Tries(id) => InUse(id)
    ensures Overfull(s) && Choose(s.entries).Tries? ==>
      Choose(s.entries).id in s.entries && !IsIdle(s, Choose(s.entries).id)
  {
    ChoiceIsOldest(s.entries);
  }

  /** Least recently used: no entry that goes was modified after an idle one that stays. */
  lemma {:induction false} OldestGoFirst(s: State, i: string, v: string)
    requires Evictable(s, Limit(s).1) && IsIdle(Evicted(s, Limit(s).1), i) && v in Limit(s).1
    ensures IsIdle(s, i) && IsIdle(s, v) && s.entries[v].modified <= s.entries[i].modified
    decreases |s.entries|
  {
    EvictionSpares(s, Limit(s).1);
    var id := LimitStep(s);
    var victims := Limit(Deleted(s, id)).1;
    assert ([id] + victims)[1..] == victims;
    if v != id {
      OldestGoFirst(Deleted(s, id), i, v);
    }
  }

  /** What goes had to go: without it and what is not older, the cache would be overfull. */
  lemma {:induction false} VictimNeeded(s: State, id: string)
    requires id in Limit(s).1
    ensures IsIdle(s, id) && Left(s, s.entries[id].modified) > s.maxCache
    decreases |s.entries|
  {
    var v := LimitStep(s);
    if v == id {
      NothingOlder(s, s.entries[id].modified);
    } else {
      VictimNeeded(Deleted(s, v), id);
      LeftAfter(s, v, s.entries[id].modified);
    }
  }

  /** What stays need not go: what is not newer is enough without it. */
  lemma {:induction false} SurvivorNotNeeded(s: State, id: string, t: int)
    requires IsIdle(s, id) && Limit(s).0 == Within && id !in Limit(s).1 && t == s.entries[id].modified + 1
    ensures Left(s, t) + s.entries[id].size <= s.maxCache
    decreases |s.entries|
  {
    if Limit(s).1 == [] {
      LimitEnds(s);
      AtLeastOne(s, id, t);
    } else {
      var v := LimitStep(s);
      SurvivorNotNeeded(Deleted(s, v), id, t);
      LeftAfter(s, v, t);
    }
  }

  // ----- Entries in use -----

  ghost predicate Blocks(s: State, b: string, i: string) {
    && b in s.entries && !Idle(s.entries[b]) && IsIdle(s, i) && FileNames.Before(i, b)
    && s.entries[b].modified <= s.entries[i].modified
  }

  /** `b`, in use, follows `i`, idle and not older; and evicting the idle entries that are older than `b` is not
      enough. */
  ghost predicate MayTry(s: State, b: string, i: string) {
    Blocks(s, b, i) && Left(s, s.entries[b].modified) > s.maxCache
  }

  /** `i` is newer than `b`, and not even evicting those that are as old as `b` is enough. */
  ghost predicate MustTry(s: State, b: string, i: string) {
    && Blocks(s, b, i) && s.entries[b].modified < s.entries[i].modified
    && Left(s, s.entries[b].modified + 1) > s.maxCache
  }

  /** An entry in use may be tried. */
  ghost predicate MayTryInUse(s: State) {
    exists b, i :: MayTry(s, b, i)
  }

  /** One must be tried. */
  ghost predicate MustTryInUse(s: State) {
    exists b, i :: MustTry(s, b, i)
  }

  lemma {:induction false} InUseOnlyIf(s: State)
    requires Limit(s).0.InUse?
    ensures MayTryInUse(s)
    decreases |s.entries|
  {
    if Limit(s).1 == [] {
      TriesInUse(s);
    } else {
      var v := LimitStep(s);
      InUseOnlyIf(Deleted(s, v));
      var b, i :| MayTry(Deleted(s, v), b, i);
      LeftAfter(s, v, s.entries[b].modified);
      assert MayTry(s, b, i);
    }
  }

  lemma TriesInUse(s: State)
    requires Limit(s).0.InUse? && Limit(s).1 == []
    ensures MayTryInUse(s)
  {
    LimitEnds(s);
    var i := TriedFollows(s);
    var b := Choose(s.entries).id;
    TriesNoNewer(s, i);
    assert Blocks(s, b, i);
    forall id | id in s.entries && Idle(s.entries[id])
      ensures s.entries[id].modified >= s.entries[b].modified
    {
      TriesNoNewer(s, id);
    }
    NothingOlder(s, s.entries[b].modified);
    assert MayTry(s, b, i);
  }

  /** As long as `b` and `i` are there, only entries that are not newer than `b` go. */
  lemma {:induction false} InUseIf(s: State, b: string, i: string, t: int)
    requires Blocks(s, b, i) && s.entries[b].modified + 1 == t <= s.entries[i].modified && Left(s, t) > s.maxCache
    ensures Limit(s).0.InUse?
    decreases |s.entries|
  {
    TriesNoNewerBehind(s, b, i);
    if Limit(s).1 == [] {
      LeftAtMost(s, t);
      LimitEnds(s);
    } else {
      var v := LimitStep(s);
      BlocksStill(s, b, i, v, t);
      InUseIf(Deleted(s, v), b, i, t);
    }
  }

  lemma BlocksStill(s: State, b: string, i: string, v: string, t: int)
    requires Blocks(s, b, i) && IsIdle(s, v) && s.entries[v].modified < t <= s.entries[i].modified
    ensures Blocks(Deleted(s, v), b, i) && Left(Deleted(s, v), t) == Left(s, t)
  {
    LeftAfter(s, v, t);
  }

  // ----- The end of the map -----

  /** `z` is a newest idle entry, and no entry in use follows it in the map; the others are not enough. */
  ghost predicate LastOne(s: State, z: string) {
    && IsIdle(s, z) && (forall j | IsIdle(s, j) :: s.entries[j].modified <= s.entries[z].modified)
    && (forall b | b in s.entries && FileNames.Before(z, b) :: Idle(s.entries[b]))
    && LeastLeft(s) + s.entries[z].size > s.maxCache
  }

  ghost predicate MayLeaveMap(s: State) {
    exists z :: LastOne(s, z)
  }

  ghost predicate MustLeaveMap(s: State) {
    exists z :: LastOne(s, z) && Newest(s, z)
  }

  lemma {:induction false} LeavesOnlyIf(s: State)
    requires Limit(s).0 == OffTheMap
    ensures MayLeaveMap(s)
    decreases |s.entries|
  {
    if Limit(s).1 == [] {
      LeavesAtOnce(s);
    } else {
      var v := LimitStep(s);
      LeavesOnlyIf(Deleted(s, v));
      var z :| LastOne(Deleted(s, v), z);
      LastOneBefore(s, v, z);
    }
  }

  lemma LeavesAtOnce(s: State)
    requires Limit(s).0 == OffTheMap && Limit(s).1 == []
    ensures MayLeaveMap(s)
  {
    LimitEnds(s);
    var z := LastAlone(s);
    OnlyIdle(s, z);
    assert LastOne(s, z);
  }

  lemma LastOneBefore(s: State, v: string, z: string)
    requires IsIdle(s, v) && LastOne(Deleted(s, v), z) && s.entries[v].modified <= s.entries[z].modified
    ensures LastOne(s, z)
  {
    LeftAfter(s, v, 0);
    var entries := Deleted(s, v).entries;
    forall j | IsIdle(s, j)
      ensures s.entries[j].modified <= s.entries[z].modified
    {
      assert j != v ==> IsIdle(Deleted(s, v), j);
    }
    forall b | b in s.entries && FileNames.Before(z, b)
      ensures Idle(s.entries[b])
    {
      assert b != v ==> b in entries;
    }
  }

  ghost predicate Newest(s: State, z: string) {
    z in s.entries && forall j | IsIdle(s, j) && j != z :: s.entries[j].modified < s.entries[z].modified
  }

  lemma {:induction false} LeavesIf(s: State, z: string)
    requires LastOne(s, z) && Newest(s, z) && !Limit(s).0.InUse?
    ensures Limit(s).0 == OffTheMap
    decreases |s.entries|
  {
    AtLeastOne(s, z, 0);
    TriesNoNewer(s, z);
    if Limit(s).1 == [] {
      LimitEnds(s);
    } else {
      var v := LimitStep(s);
      NotTheLast(s, z);
      LastOneAfter(s, v, z);
      LeavesIf(Deleted(s, v), z);
    }
  }

  lemma LastOneAfter(s: State, v: string, z: string)
    requires IsIdle(s, v) && v != z && LastOne(s, z) && Newest(s, z)
    ensures LastOne(Deleted(s, v), z) && Newest(Deleted(s, v), z)
  {
    LeftAfter(s, v, 0);
    forall j | IsIdle(Deleted(s, v), j)
      ensures IsIdle(s, j)
    {
    }
  }

  /** The newest one is not tried: what else the scan could take is an older one, or follows an older one. */
  lemma NotTheLast(s: State, z: string)
    requires LastOne(s, z) && Newest(s, z)
    ensures Choose(s.entries) != Tries(z)
  {
    if Choose(s.entries) == Tries(z) {
      var e, i := TriedHasOther(s);
      TriesNoNewer(s, i);
      assert i == z && IsIdle(s, e);
      TriesNoNewer(s, e);
      assert false;
    }
  }

  // ----- What a caller can tell -----

  /** No idle entry was last modified in the same second as another entry. */
  ghost predicate Timed(entries: map<string, Entry>) {
    forall i, j | i in entries && j in entries && i != j && Idle(entries[i]) ::
      entries[i].modified != entries[j].modified
  }

  lemma LeftSame(s: State, t: int)
    requires forall id | id in s.entries && Idle(s.entries[id]) :: s.entries[id].modified != t
    ensures Left(s, t) == Left(s, t + 1)
  {
    assert OlderSizes(s.entries, t) == OlderSizes(s.entries, t + 1);
  }

  lemma TimedTry(s: State, b: string, i: string)
    requires Timed(s.entries)
    ensures MayTry(s, b, i) <==> MustTry(s, b, i)
  {
    if Blocks(s, b, i) {
      assert s.entries[i].modified != s.entries[b].modified;
      LeftSame(s, s.entries[b].modified);
    }
  }

  lemma MayTryIsMust(s: State)
    requires Timed(s.entries)
    ensures MayTryInUse(s) <==> MustTryInUse(s)
  {
    forall b, i
      ensures MayTry(s, b, i) <==> MustTry(s, b, i)
    {
      TimedTry(s, b, i);
    }
  }

  lemma MayLeaveIsMust(s: State)
    requires Timed(s.entries)
    ensures MayLeaveMap(s) <==> MustLeaveMap(s)
  {
    if z :| LastOne(s, z) {
      forall j | IsIdle(s, j) && j != z
        ensures s.entries[j].modified < s.entries[z].modified
      {
        assert s.entries[j].modified != s.entries[z].modified;
      }
      assert Newest(s, z);
    }
  }

  lemma InUseIfMust(s: State)
    requires MustTryInUse(s)
    ensures Limit(s).0.InUse?
  {
    var b, i :| MustTry(s, b, i);
    InUseIf(s, b, i, s.entries[b].modified + 1);
  }

  /** CheckLimit tries an entry in use if that must be so, and only if it may be so; which is the same thing unless an
      idle entry was modified in the same second as another one. */
  lemma InUseExactly(s: State)
    ensures MustTryInUse(s) ==> Limit(s).0.InUse?
    ensures Limit(s).0.InUse? ==> MayTryInUse(s)
    ensures Timed(s.entries) ==> (Limit(s).0.InUse? <==> MayTryInUse(s))
  {
    if MustTryInUse(s) {
      InUseIfMust(s);
    }
    if Limit(s).0.InUse? {
      InUseOnlyIf(s);
    }
    if Timed(s.entries) {
      MayTryIsMust(s);
    }
  }

  /** It leaves the map if that must be so and it tries no entry in use, and only if it may be so. */
  lemma LeavesExactly(s: State)
    ensures MustLeaveMap(s) && !Limit(s).0.InUse? ==> Limit(s).0 == OffTheMap
    ensures Limit(s).0 == OffTheMap ==> MayLeaveMap(s)
    ensures Timed(s.entries) ==> (Limit(s).0 == OffTheMap <==> MayLeaveMap(s) && !MayTryInUse(s))
  {
    if !Limit(s).0.InUse? {
      if z :| LastOne(s, z) && Newest(s, z) {
        LeavesIf(s, z);
      }
    }
    if Limit(s).0 == OffTheMap {
      LeavesOnlyIf(s);
    }
    if Timed(s.entries) {
      MayLeaveIsMust(s);
      InUseExactly(s);
    }
  }

  /** Otherwise it comes within the limit if and only if evicting every idle entry is enough. */
  lemma FreesEnough(s: State)
    requires Limit(s).0 in {Within, AllBusy}
    ensures Limit(s).0 == Within <==> LeastLeft(s) <= s.maxCache
  {
    LimitEvicts(s);
    var (result, victims) := Limit(s);
    var s' := Evicted(s, victims);
    EvictionFreesIdle(s, victims);
    EvictionSpares(s, victims);
    if result == AllBusy {
      ZeroSum(IdleSizes(s'.entries));
    }
  }

  /** When CheckLimit succeeds. */
  ghost predicate Succeeds(s: State) {
    !MayTryInUse(s) && !MayLeaveMap(s) && LeastLeft(s) <= s.maxCache
  }

  /** CheckLimit succeeds if no entry in use may be tried, the map may not be left, and evicting every idle entry is
      enough; and only then, unless an idle entry was modified in the same second as another one. */
  lemma SucceedsExactly(s: State)
    ensures Succeeds(s) ==> Limit(s).0 == Within
    ensures Limit(s).0 == Within ==> !MustTryInUse(s) && !MustLeaveMap(s) && LeastLeft(s) <= s.maxCache
    ensures Timed(s.entries) ==> (Limit(s).0 == Within <==> Succeeds(s))
  {
    InUseExactly(s);
    LeavesExactly(s);
    if Limit(s).0 in {Within, AllBusy} {
      FreesEnough(s);
    }
  }

  /** In a successful call an idle entry goes if what is not newer is not enough without it, and only if what is older
      is not enough. */
  lemma GoesExactly(s: State, id: string)
    requires IsIdle(s, id) && Limit(s).0 == Within
    ensures Left(s, s.entries[id].modified + 1) + s.entries[id].size > s.maxCache ==> id in Limit(s).1
    ensures id in Limit(s).1 ==> Left(s, s.entries[id].modified) > s.maxCache
    ensures Timed(s.entries) ==> (id in Limit(s).1 <==> Left(s, s.entries[id].modified) > s.maxCache)
  {
    if id in Limit(s).1 {
      VictimNeeded(s, id);
    } else {
      SurvivorNotNeeded(s, id, s.entries[id].modified + 1);
    }
    if Timed(s.entries) {
      OneMore(s, id);
    }
  }

  lemma OneMore(s: State, id: string)
    requires IsIdle(s, id) && Timed(s.entries)
    ensures Left(s, s.entries[id].modified + 1) + s.entries[id].size == Left(s, s.entries[id].modified)
  {
    var t := s.entries[id].modified;
    OnlyOneMore(s.entries, id, t);
    SumRemove(OlderSizes(s.entries, t), id);
    SumRemove(OlderSizes(s.entries, t + 1), id);
  }

  lemma OnlyOneMore(entries: map<string, Entry>, id: string, t: int)
    requires id in entries && Idle(entries[id]) && entries[id].modified == t && Timed(entries)
    ensures OlderSizes(entries, t) - {id} == OlderSizes(entries, t + 1) - {id}
  {
    forall k | k in entries && k != id
      ensures OlderSizes(entries, t)[k] == OlderSizes(entries, t + 1)[k]
    {
      assert Idle(entries[k]) ==> entries[k].modified != t;
    }
  }

  // ----- Files that cannot be deleted -----

  lemma StuckAfter(s: State, id: string, v: string, stuck: set<Key>)
    requires IsIdle(s, id) && IsIdle(Deleted(s, id), v)
    ensures v != id && IsIdle(s, v) && (HasStuck(Deleted(s, id), v, stuck) <==> HasStuck(s, v, stuck))
  {
    var s' := Deleted(s, id);
    if HasStuck(s, v, stuck) {
      var k :| k in stuck && k in s.files && k.id == v && k.index < s.entries[v].streams;
      assert k in s'.files;
    }
  }

  lemma AnyStuckAfter(s: State, id: string, victims: seq<string>, stuck: set<Key>)
    requires IsIdle(s, id) && forall v | v in victims :: IsIdle(Deleted(s, id), v)
    ensures AnyStuck(s, [id] + victims, stuck) <==> HasStuck(s, id, stuck) || AnyStuck(Deleted(s, id), victims, stuck)
  {
    var s' := Deleted(s, id);
    assert forall v :: v in [id] + victims <==> v == id || v in victims;
    forall v | v in victims
      ensures HasStuck(s', v, stuck) <==> HasStuck(s, v, stuck)
    {
      StuckAfter(s, id, v, stuck);
    }
  }

  /** It ends with the last of `victims`, the only one with a file that is stuck. */
  ghost predicate EndsStuck(s: State, result: LimitResult, victims: seq<string>, stuck: set<Key>) {
    victims != [] && var last := |victims| - 1;
      result == NotDeleted(victims[last]) && HasStuck(s, victims[last], stuck) && !AnyStuck(s, victims[..last], stuck)
  }

  lemma EndsStuckBefore(s: State, id: string, result: LimitResult, victims: seq<string>, stuck: set<Key>)
    requires IsIdle(s, id) && !HasStuck(s, id, stuck) && forall v | v in victims :: IsIdle(Deleted(s, id), v)
    requires EndsStuck(Deleted(s, id), result, victims, stuck)
    ensures EndsStuck(s, result, [id] + victims, stuck)
  {
    var last := |victims| - 1;
    var front := victims[..last];
    assert ([id] + victims)[..last + 1] == [id] + front;
    assert forall v | v in front :: v in victims;
    AnyStuckAfter(s, id, front, stuck);
    StuckAfter(s, id, victims[last], stuck);
  }

  ghost predicate StuckOrNot(s: State, stuck: set<Key>) {
    var (result, victims) := LimitWith(s, stuck);
    if AnyStuck(s, Limit(s).1, stuck) then victims <= Limit(s).1 && EndsStuck(s, result, victims, stuck)
    else (result, victims) == Limit(s)
  }

  lemma LimitWithStep(s: State, id: string, stuck: set<Key>)
    requires Overfull(s) && Choose(s.entries) == Tries(id) && IsIdle(s, id)
    ensures LimitWith(s, stuck) ==
      if HasStuck(s, id, stuck) then (NotDeleted(id), [id])
      else (LimitWith(Deleted(s, id), stuck).0, [id] + LimitWith(Deleted(s, id), stuck).1)
  {
    FewerEntries(s.entries, id);
  }

  lemma StuckNow(s: State, id: string, stuck: set<Key>)
    requires Overfull(s) && Choose(s.entries) == Tries(id) && IsIdle(s, id) && HasStuck(s, id, stuck)
    requires Limit(s).1 == [id] + Limit(Deleted(s, id)).1
    ensures StuckOrNot(s, stuck)
  {
    LimitWithStep(s, id, stuck);
    assert id in Limit(s).1 && [id] <= Limit(s).1;
    assert [id][..0] == [];
  }

  lemma StuckLater(s: State, id: string, stuck: set<Key>)
    requires Overfull(s) && Choose(s.entries) == Tries(id) && IsIdle(s, id) && !HasStuck(s, id, stuck)
    requires Limit(s) == (Limit(Deleted(s, id)).0, [id] + Limit(Deleted(s, id)).1) && StuckOrNot(Deleted(s, id), stuck)
    requires forall v | v in Limit(Deleted(s, id)).1 :: IsIdle(Deleted(s, id), v)
    ensures StuckOrNot(s, stuck)
  {
    var s' := Deleted(s, id);
    LimitWithStep(s, id, stuck);
    AnyStuckAfter(s, id, Limit(s').1, stuck);
    if AnyStuck(s', Limit(s').1, stuck) {
      var (result, victims) := LimitWith(s', stuck);
      assert forall v | v in victims :: v in Limit(s').1;
      EndsStuckBefore(s, id, result, victims, stuck);
      assert [id] + victims <= [id] + Limit(s').1;
    }
  }

  /** Files that cannot be deleted change nothing if they belong to no entry that would go; otherwise CheckLimit evicts
      in the same order, up to the first entry with such a file, and fails there. */
  lemma {:induction false} StuckExactly(s: State, stuck: set<Key>)
    ensures StuckOrNot(s, stuck)
    decreases |s.entries|
  {
    if Limit(s).1 == [] {
      LimitEnds(s);
    } else {
      var id := LimitStep(s);
      if HasStuck(s, id, stuck) {
        StuckNow(s, id, stuck);
      } else {
        StuckExactly(Deleted(s, id), stuck);
        forall v | v in Limit(Deleted(s, id)).1
          ensures IsIdle(Deleted(s, id), v)
        {
          VictimNeeded(Deleted(s, id), v);
        }
        StuckLater(s, id, stuck);
      }
    }
  }

  // ----- LockResource -----

  lemma LostIfEvicted(s: State, id: string, stuck: set<Key>)
    requires id in s.entries
    ensures var victims := LimitWith(s, stuck).1;
      && Evictable(s, victims)
      && (LockOutcome(s, id, victims, stuck).0 == EntryLost <==>
            Limit(s).0 == Within && id in Limit(s).1 && !AnyStuck(s, Limit(s).1, stuck))
  {
    LimitEvicts(s);
    StuckExactly(s, stuck);
    if AnyStuck(s, Limit(s).1, stuck) {
      EvictablePrefix(s, Limit(s).1, LimitWith(s, stuck).1);
    } else {
      VictimsGo(s, Limit(s).1, id);
    }
  }

  lemma {:induction false} EvictablePrefix(s: State, all: seq<string>, victims: seq<string>)
    requires Evictable(s, all) && victims <= all
    ensures Evictable(s, victims)
    decreases |victims|
  {
    if victims != [] {
      EvictablePrefix(Deleted(s, victims[0]), all[1..], victims[1..]);
    }
  }

  /** An entry that goes, unless others are enough, has a file that cannot be deleted. */
  ghost predicate MeetsStuck(s: State, stuck: set<Key>) {
    exists v :: IsIdle(s, v) && HasStuck(s, v, stuck) && Left(s, s.entries[v].modified) > s.maxCache
  }

  lemma MeetsStuckExactly(s: State, stuck: set<Key>)
    requires Limit(s).0 == Within
    ensures AnyStuck(s, Limit(s).1, stuck) ==> MeetsStuck(s, stuck)
    ensures Timed(s.entries) ==> (AnyStuck(s, Limit(s).1, stuck) <==> MeetsStuck(s, stuck))
  {
    if AnyStuck(s, Limit(s).1, stuck) {
      var v :| v in Limit(s).1 && HasStuck(s, v, stuck);
      VictimNeeded(s, v);
    }
    if Timed(s.entries) && MeetsStuck(s, stuck) {
      var v :| IsIdle(s, v) && HasStuck(s, v, stuck) && Left(s, s.entries[v].modified) > s.maxCache;
      GoesExactly(s, v);
    }
  }

  /** The outcome of LockResource for the entry `id`. */
  ghost predicate Loses(s: State, id: string, stuck: set<Key>) {
    && id in s.entries && Evictable(s, LimitWith(s, stuck).1)
    && LockOutcome(s, id, LimitWith(s, stuck).1, stuck).0 == EntryLost
  }

  /** LockResource loses the very entry that it locks if and only if CheckLimit would succeed, the entry is idle,
      evicting the idle ones that are older is not enough, and no entry that goes has a file that cannot be deleted. */
  lemma LosesExactly(s: State, id: string, stuck: set<Key>)
    requires id in s.entries && Timed(s.entries)
    ensures Evictable(s, LimitWith(s, stuck).1)
    ensures Loses(s, id, stuck) <==>
      IsIdle(s, id) && Succeeds(s) && Left(s, s.entries[id].modified) > s.maxCache && !MeetsStuck(s, stuck)
  {
    LostIfEvicted(s, id, stuck);
    SucceedsExactly(s);
    if Limit(s).0 == Within {
      MeetsStuckExactly(s, stuck);
      if IsIdle(s, id) {
        GoesExactly(s, id);
      } else if id in Limit(s).1 {
        VictimNeeded(s, id);
      }
    }
  }

  /** If an idle entry was modified in the same second as another one: LockResource loses the entry only if what must
      happen does not keep it from that, and evicting the idle ones that are older is not enough; and it does if what
      may happen does not, and evicting the others that are not newer is not enough. */
  lemma LosesBounds(s: State, id: string, stuck: set<Key>)
    requires id in s.entries
    ensures Loses(s, id, stuck) ==>
      && IsIdle(s, id) && Left(s, s.entries[id].modified) > s.maxCache
      && !MustTryInUse(s) && !MustLeaveMap(s) && LeastLeft(s) <= s.maxCache
    ensures IsIdle(s, id) && Succeeds(s) && !MeetsStuck(s, stuck) ==>
      (Left(s, s.entries[id].modified + 1) + s.entries[id].size > s.maxCache ==> Loses(s, id, stuck))
  {
    LostIfEvicted(s, id, stuck);
    SucceedsExactly(s);
    if id in Limit(s).1 {
      VictimNeeded(s, id);
    }
    if Limit(s).0 == Within {
      MeetsStuckExactly(s, stuck);
      if IsIdle(s, id) {
        GoesExactly(s, id);
      }
    }
  }
}
