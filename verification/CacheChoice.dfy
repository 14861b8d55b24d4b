/** What CheckLimit evicts: the order of the map, the choice of the next entry, and how the evicting ends. */
module CacheChoice {
  import opened CacheState
  import FileNames
  import Seqs

  // ----- The order in which the map lists its entries -----

  predicate Least(keys: set<string>, k: string) {
    k in keys && forall j | j in keys :: j == k || FileNames.Before(k, j)
  }

  lemma {:induction false} LeastExists(keys: set<string>) returns (k: string)
    requires keys != {}
    ensures Least(keys, k)
    decreases |keys|
  {
    var x :| x in keys;
    if keys == {x} {
      k := x;
    } else {
      var y := LeastExists(keys - {x});
      FileNames.BeforeTotal(x, y);
      k := if FileNames.Before(x, y) then x else y;
      forall j | j in keys && j != k
        ensures FileNames.Before(k, j)
      {
        if k == x && j != y {
          FileNames.BeforeTransitive(x, y, j);
        }
      }
    }
  }

  lemma LeastIsUnique(keys: set<string>, j: string, k: string)
    requires Least(keys, j) && Least(keys, k)
    ensures j == k
  {
    if j != k {
      FileNames.BeforeTransitive(j, k, j);
      FileNames.BeforeIrreflexive(j);
    }
  }

  lemma HasLeast(keys: set<string>)
    requires keys != {}
    ensures exists k :: Least(keys, k)
    ensures forall j, k | Least(keys, j) && Least(keys, k) :: j == k
  {
    var k := LeastExists(keys);
    forall i, j | Least(keys, i) && Least(keys, j)
      ensures i == j
    {
      LeastIsUnique(keys, i, j);
    }
  }

  lemma SortedBehind(k: string, others: seq<string>)
    requires FileNames.Sorted(others) && forall j | j in others :: FileNames.Before(k, j)
    ensures FileNames.Sorted([k] + others)
  {
    var order := [k] + others;
    forall i, j | 0 <= i < j < |order|
      ensures FileNames.Before(order[i], order[j])
    {
      assert order[j] == others[j - 1] && others[j - 1] in others;
      assert i > 0 ==> order[i] == others[i - 1];
    }
  }

  /** The keys of a std::map, from its begin to its end. */
  function Listing(keys: set<string>): (order: seq<string>)
    ensures FileNames.Sorted(order) && forall k :: k in order <==> k in keys
    decreases |keys|
  {
    if keys == {} then []
    else
      HasLeast(keys);
      var k :| Least(keys, k);
      var others := Listing(keys - {k});
      SortedBehind(k, others);
      [k] + others
  }

  // ----- The next entry to evict -----

  /** Nobody: no entry is idle.  PastEnd: the first idle entry is the last of the map, and the source looks at the time
      of an entry behind it, which is not there. */
  datatype Choice = Nobody | PastEnd | Tries(id: string)

  function FirstIdle(entries: map<string, Entry>, order: seq<string>, i: nat := 0): (n: nat)
    requires i <= |order| && forall k | k in order :: k in entries
    ensures i <= n <= |order| && (n < |order| ==> Idle(entries[order[n]]))
    ensures forall k | i <= k < n :: !Idle(entries[order[k]])
    decreases |order| - i
  {
    if i == |order| || Idle(entries[order[i]]) then i else FirstIdle(entries, order, i + 1)
  }

  /** From `it` on, every entry that was modified before `oldest` takes its place, be it idle or not. */
  function Scan(entries: map<string, Entry>, order: seq<string>, it: nat, oldest: nat): (n: nat)
    requires it <= |order| && oldest < |order| && forall k | k in order :: k in entries
    ensures n == oldest || it <= n < |order|
    ensures n < |order| && entries[order[n]].modified <= entries[order[oldest]].modified
    ensures forall k | it <= k < |order| :: entries[order[n]].modified <= entries[order[k]].modified
    decreases |order| - it
  {
    if it == |order| then oldest
    else if entries[order[it]].modified < entries[order[oldest]].modified then Scan(entries, order, it + 1, it)
    else Scan(entries, order, it + 1, oldest)
  }

  /** The scan starts at the first idle entry, with the entry behind it as the oldest so far. */
  function Chosen(entries: map<string, Entry>, order: seq<string>): Choice
    requires forall k | k in order :: k in entries
  {
    var first := FirstIdle(entries, order);
    if first == |order| then Nobody
    else if first + 1 == |order| then PastEnd
    else Tries(order[Scan(entries, order, first, first + 1)])
  }

  function Choose(entries: map<string, Entry>): Choice {
    Chosen(entries, Listing(entries.Keys))
  }

  /** The entry comes after an idle one in the map, or is idle itself. */
  ghost predicate Eligible(entries: map<string, Entry>, id: string) {
    id in entries && exists k | k in entries && Idle(entries[k]) :: k == id || FileNames.Before(k, id)
  }

  lemma EligibleAt(entries: map<string, Entry>, n: nat)
    requires n < |Listing(entries.Keys)| && FirstIdle(entries, Listing(entries.Keys)) <= n
    ensures Eligible(entries, Listing(entries.Keys)[n])
  {
    var order := Listing(entries.Keys);
    var first := FirstIdle(entries, order);
    assert order[n] in order && order[first] in order;
    assert order[first] == order[n] || FileNames.Before(order[first], order[n]);
  }

  lemma WhereEligible(entries: map<string, Entry>, id: string) returns (n: nat)
    requires Eligible(entries, id)
    ensures FirstIdle(entries, Listing(entries.Keys)) <= n < |Listing(entries.Keys)|
    ensures Listing(entries.Keys)[n] == id
  {
    var order := Listing(entries.Keys);
    var k :| k in entries && Idle(entries[k]) && (k == id || FileNames.Before(k, id));
    assert id in order && k in order;
    n :| 0 <= n < |order| && order[n] == id;
    var i :| 0 <= i < |order| && order[i] == k;
    SortedIndices(order, i, n);
  }

  lemma SortedIndices(order: seq<string>, i: nat, j: nat)
    requires FileNames.Sorted(order) && i < |order| && j < |order|
    requires order[i] == order[j] || FileNames.Before(order[i], order[j])
    ensures i <= j
  {
    if j < i {
      if order[i] != order[j] {
        FileNames.BeforeTransitive(order[i], order[j], order[i]);
      }
      FileNames.BeforeIrreflexive(order[i]);
      assert false;
    }
  }

  /** What the scan finds: the entry last modified longest ago, among the first idle entry and all that follow it,
      whether they are idle or not; nobody if and only if no entry is idle; and it runs past the end if and only if the
      only eligible entry is one that is idle. */
  lemma ChoiceIsOldest(entries: map<string, Entry>)
    ensures match Choose(entries)
      case Nobody => forall id | id in entries :: !Idle(entries[id])
      case PastEnd => exists id | id in entries && Idle(entries[id]) :: forall j | Eligible(entries, j) :: j == id
      case Tries(id) => Oldest(entries, id) && exists j | Eligible(entries, j) :: j != id
  {
    match Choose(entries)
    case Nobody => NobodyIdle(entries);
    case PastEnd => OnlyOne(entries);
    case Tries(_) => ScanFinds(entries);
  }

  ghost predicate Oldest(entries: map<string, Entry>, id: string) {
    Eligible(entries, id) && forall j | Eligible(entries, j) :: entries[id].modified <= entries[j].modified
  }

  lemma NobodyIdle(entries: map<string, Entry>)
    requires Choose(entries) == Nobody
    ensures forall id | id in entries :: !Idle(entries[id])
  {
    forall id | id in entries
      ensures !Idle(entries[id])
    {
      assert id in Listing(entries.Keys);
    }
  }

  lemma OnlyOne(entries: map<string, Entry>)
    requires Choose(entries) == PastEnd
    ensures exists id | id in entries && Idle(entries[id]) :: forall j | Eligible(entries, j) :: j == id
  {
    var order := Listing(entries.Keys);
    var last := order[|order| - 1];
    assert last in order;
    forall j | Eligible(entries, j)
      ensures j == last
    {
      var n := WhereEligible(entries, j);
    }
  }

  lemma ScanFinds(entries: map<string, Entry>)
    requires Choose(entries).Tries?
    ensures Oldest(entries, Choose(entries).id) && exists j | Eligible(entries, j) :: j != Choose(entries).id
  {
    var order := Listing(entries.Keys);
    var first := FirstIdle(entries, order);
    var n := Scan(entries, order, first, first + 1);
    EligibleAt(entries, n);
    forall j | Eligible(entries, j)
      ensures entries[order[n]].modified <= entries[j].modified
    {
      var k := WhereEligible(entries, j);
    }
    var other := if n == first then first + 1 else first;
    EligibleAt(entries, other);
    SortedDiffer(order, n, other);
  }

  lemma SortedDiffer(order: seq<string>, i: nat, j: nat)
    requires FileNames.Sorted(order) && i < |order| && j < |order| && i != j
    ensures order[i] != order[j]
  {
    FileNames.BeforeIrreflexive(order[i]);
  }

  // ----- CheckLimit -----

  /** How CheckLimit ends: within the limit; because no entry is idle; because the entry that it tries is in use, or
      has a file that cannot be deleted; or in the step past the end of the map, which has no defined meaning, and where
      this model gives up. */
  datatype LimitResult = Within | AllBusy | InUse(id: string) | NotDeleted(id: string) | OffTheMap

  /** CheckLimit when all files can be deleted: how it ends, and what it evicts. */
  function Limit(s: State): (r: (LimitResult, seq<string>))
    ensures (r.0 == Within || Overfull(s)) && !r.0.NotDeleted?
    decreases |s.entries|
  {
    if !Overfull(s) then (Within, [])
    else
      match Choose(s.entries)
      case Nobody => (AllBusy, [])
      case PastEnd => (OffTheMap, [])
      case Tries(id) =>
        ChoiceIsOldest(s.entries);
        if !Idle(s.entries[id]) then (InUse(id), [])
        else
          assert |Deleted(s, id).entries| < |s.entries| by { FewerEntries(s.entries, id); }
          var (result, victims) := Limit(Deleted(s, id));
          (result, [id] + victims)
  }

  lemma FewerEntries(entries: map<string, Entry>, id: string)
    requires id in entries
    ensures |entries - {id}| < |entries|
  {
    assert (entries - {id}).Keys == entries.Keys - {id};
    assert |entries - {id}| == |(entries - {id}).Keys| && |entries| == |entries.Keys|;
  }

  /** CheckLimit when the files that are `stuck` cannot be deleted.  Their entry goes all the same. */
  ghost function LimitWith(s: State, stuck: set<Key>): (r: (LimitResult, seq<string>))
    decreases |s.entries|
  {
    if !Overfull(s) then (Within, [])
    else
      match Choose(s.entries)
      case Nobody => (AllBusy, [])
      case PastEnd => (OffTheMap, [])
      case Tries(id) =>
        ChoiceIsOldest(s.entries);
        if !Idle(s.entries[id]) then (InUse(id), [])
        else if HasStuck(s, id, stuck) then (NotDeleted(id), [id])
        else
          assert |Deleted(s, id).entries| < |s.entries| by { FewerEntries(s.entries, id); }
          var (result, victims) := LimitWith(Deleted(s, id), stuck);
          (result, [id] + victims)
  }

  /** CheckLimit has got from `start` to `s` by evicting `victims`. */
  ghost predicate Evicting(start: State, victims: seq<string>, s: State, stuck: set<Key>) {
    && Evictable(start, victims) && s == Evicted(start, victims) && !AnyStuck(start, victims, stuck)
    && LimitWith(start, stuck) == (LimitWith(s, stuck).0, victims + LimitWith(s, stuck).1)
  }

  lemma EvictingStarts(s: State, stuck: set<Key>)
    ensures Evicting(s, [], s, stuck)
  {
    assert [] + LimitWith(s, stuck).1 == LimitWith(s, stuck).1;
  }

  /** What an eviction comes to: the next state, or the end. */
  lemma EvictingGoesOn(start: State, victims: seq<string>, s: State, id: string, stuck: set<Key>)
    requires Evicting(start, victims, s, stuck) && Overfull(s) && Choose(s.entries) == Tries(id)
    ensures id in s.entries
    ensures !Idle(s.entries[id]) ==> LimitWith(start, stuck) == (InUse(id), victims)
    ensures Idle(s.entries[id]) ==>
      && Evictable(start, victims + [id])
      && Leaving(s, Deleted(s, id), stuck) == Leaving(start, Evicted(start, victims + [id]), stuck)
      && (AnyStuck(start, victims + [id], stuck) <==> HasStuck(s, id, stuck))
    ensures Idle(s.entries[id]) && HasStuck(s, id, stuck) ==>
      LimitWith(start, stuck) == (NotDeleted(id), victims + [id])
    ensures Idle(s.entries[id]) && !HasStuck(s, id, stuck) ==>
      && Evicting(start, victims + [id], Leaving(s, Deleted(s, id), stuck), stuck)
      && |Deleted(s, id).entries| < |s.entries|
  {
    ChoiceIsOldest(s.entries);
    assert victims + [] == victims;
    if Idle(s.entries[id]) {
      EvictedMore(start, victims, id);
      StuckStay(start, victims, stuck);
      OneMoreStuck(start, victims, id, stuck);
      if !HasStuck(s, id, stuck) {
        FewerEntries(s.entries, id);
        NothingLeft(s, id, stuck);
        Seqs.Assoc(victims, [id], LimitWith(Deleted(s, id), stuck).1);
      }
    }
  }

  /** The files that are stuck are still there, if no entry that has gone had any. */
  lemma {:induction false} StuckStay(s: State, victims: seq<string>, stuck: set<Key>)
    requires Evictable(s, victims) && !AnyStuck(s, victims, stuck)
    ensures StuckFiles(Evicted(s, victims).files, stuck) == StuckFiles(s.files, stuck)
    decreases |victims|
  {
    if victims != [] {
      var v := victims[0];
      assert !HasStuck(s, v, stuck);
      StuckElsewhere(s, v, victims[1..], stuck);
      StuckStay(Deleted(s, v), victims[1..], stuck);
      assert StuckFiles(Deleted(s, v).files, stuck) == StuckFiles(s.files, stuck);
    }
  }

  lemma StuckElsewhere(s: State, v: string, victims: seq<string>, stuck: set<Key>)
    requires v in s.entries && forall u | u in victims :: !HasStuck(s, u, stuck)
    ensures !AnyStuck(Deleted(s, v), victims, stuck)
  {
    forall u | u in victims
      ensures !HasStuck(Deleted(s, v), u, stuck)
    {
      assert !HasStuck(s, u, stuck);
    }
  }

  lemma OneMoreStuck(start: State, victims: seq<string>, id: string, stuck: set<Key>)
    requires Evictable(start, victims) && !AnyStuck(start, victims, stuck) && id in Evicted(start, victims).entries
    requires StuckFiles(Evicted(start, victims).files, stuck) == StuckFiles(start.files, stuck)
    ensures AnyStuck(start, victims + [id], stuck) <==> HasStuck(Evicted(start, victims), id, stuck)
  {
    var s := Evicted(start, victims);
    EvictionSpares(start, victims);
    StuckByFiles(start, id, stuck);
    StuckByFiles(s, id, stuck);
    assert id in victims + [id];
  }

  lemma StuckByFiles(s: State, id: string, stuck: set<Key>)
    requires id in s.entries
    ensures HasStuck(s, id, stuck) <==>
      exists k | k in StuckFiles(s.files, stuck) :: k.id == id && k.index < s.entries[id].streams
  {
    if HasStuck(s, id, stuck) {
      var k :| k in stuck && k in s.files && k.id == id && k.index < s.entries[id].streams;
      assert k in StuckFiles(s.files, stuck);
    }
  }

  /** If the entry has no file that is stuck, deleting it leaves none. */
  lemma NothingLeft(s: State, id: string, stuck: set<Key>)
    requires id in s.entries && !HasStuck(s, id, stuck)
    ensures Leaving(s, Deleted(s, id), stuck) == Deleted(s, id)
  {
    var files := Deleted(s, id).files;
    assert StuckFiles(files, stuck) == StuckFiles(s.files, stuck);
    MergeNothing(files, stuck);
  }

  /** Nothing more is evicted once the cache is within its limit, or nobody can be tried. */
  lemma GivesUp(start: State, victims: seq<string>, s: State, stuck: set<Key>)
    requires Evicting(start, victims, s, stuck)
    ensures !Overfull(s) ==> LimitWith(start, stuck) == (Within, victims)
    ensures Overfull(s) && Choose(s.entries) == Nobody ==> LimitWith(start, stuck) == (AllBusy, victims)
    ensures Overfull(s) && Choose(s.entries) == PastEnd ==> LimitWith(start, stuck) == (OffTheMap, victims)
    ensures s == Leaving(start, s, stuck)
  {
    assert victims + [] == victims;
    StuckStay(start, victims, stuck);
    MergeNothing(s.files, stuck);
  }

  lemma {:induction false} EvictedMore(s: State, victims: seq<string>, id: string)
    requires Evictable(s, victims) && Overfull(Evicted(s, victims)) && IsIdle(Evicted(s, victims), id)
    ensures Evictable(s, victims + [id]) && Evicted(s, victims + [id]) == Deleted(Evicted(s, victims), id)
    decreases |victims|
  {
    if victims == [] {
      assert Evictable(Deleted(s, id), []);
      assert ([] + [id])[1..] == [];
    } else {
      EvictedMore(Deleted(s, victims[0]), victims[1..], id);
      assert (victims + [id])[1..] == victims[1..] + [id];
    }
  }

  /** Whatever is chosen, only idle entries go, and only while the cache is overfull; and the way it ends says how
      things stand. */
  lemma {:induction false} LimitEvicts(s: State)
    ensures var (result, victims) := Limit(s);
      Evictable(s, victims) && var s' := Evicted(s, victims);
      match result
      case Within => !Overfull(s')
      case AllBusy => Overfull(s') && forall id | id in s'.entries :: !Idle(s'.entries[id])
      case InUse(id) => Overfull(s') && Choose(s'.entries) == Tries(id) && id in s'.entries && !Idle(s'.entries[id])
      case OffTheMap => Overfull(s') && Choose(s'.entries) == PastEnd
    decreases |s.entries|
  {
    ChoiceIsOldest(s.entries);
    if Overfull(s) && Choose(s.entries).Tries? && Idle(s.entries[Choose(s.entries).id]) {
      var id := Choose(s.entries).id;
      FewerEntries(s.entries, id);
      LimitEvicts(Deleted(s, id));
      var victims := Limit(Deleted(s, id)).1;
      assert ([id] + victims)[1..] == victims;
    }
  }

  lemma {:induction false} VictimsGo(s: State, victims: seq<string>, id: string)
    requires id in s.entries && Evictable(s, victims)
    ensures id in Evicted(s, victims).entries <==> id !in victims
    ensures id in victims ==> IsIdle(s, id)
    decreases |victims|
  {
    if victims != [] && victims[0] != id {
      VictimsGo(Deleted(s, victims[0]), victims[1..], id);
    } else if victims != [] {
      EvictionSpares(Deleted(s, id), victims[1..]);
    }
  }
}
