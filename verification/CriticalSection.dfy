/** The recursive lock of criticalsection.cc (Mac branch): a spin loop, an atomic queue counter and a semaphore.

    Every atomic operation, and every access to the plain fields, is one step of one thread; a run is any
    interleaving of the steps of any number of threads.  `depth` is not a field of the source: it counts the
    acquisitions of a thread that are included in `lockQueue`.
 */
module CriticalSection {

  /** PlatformThreadRef; 0 is the value of `owning_thread_` when nobody owns the lock. */
  type Tid = t: nat | 0 < t witness 1

  const MAX_SPIN: nat := 3000

  /** What a thread is about to do next. */
  datatype Pc =
    | Idle
    | EnterCompare(spin: nat)   // compare owning_thread_ with self
    | EnterLoad(spin: nat)      // read lock_queue_
    | EnterCas(spin: nat)       // compare-and-swap lock_queue_ from 0 to 1
    | EnterYield(spin: nat)     // yield, count the spin down
    | EnterNest                 // own the lock: increment lock_queue_
    | EnterQueue                // gave up spinning: increment lock_queue_
    | EnterWait                 // wait on the semaphore
    | EnterOwn                  // have the lock: store owning_thread_
    | EnterCount                // increment recursion_
    | TryCompare                // compare owning_thread_ with self
    | TryCas                    // compare-and-swap lock_queue_ from 0 to 1
    | TryOwn                    // have the lock: store owning_thread_
    | TryNest                   // own the lock: increment lock_queue_
    | TryCount                  // increment recursion_
    | LeaveCount                // decrement recursion_
    | LeaveRead                 // test recursion_
    | LeaveDisown               // clear owning_thread_
    | LeaveQueue                // decrement lock_queue_
    | LeaveTest                 // lock_queue_ was still positive: test recursion_
    | LeaveSignal               // signal the semaphore

  datatype Thread = Thread(pc: Pc, depth: nat)

  datatype State = State(
    lockQueue: int, owner: nat, recursion: int, semaphore: nat, threads: map<Tid, Thread>)
  {
    function Get(t: Tid): Thread {
      if t in threads then threads[t] else Thread(Idle, 0)
    }
  }

  /** The lock as constructed, with no thread inside any call. */
  predicate Initial(s: State) {
    s.lockQueue == 0 && s.owner == 0 && s.recursion == 0 && s.semaphore == 0 && s.threads == map[]
  }

  /** What the client of an idle thread asks for; a thread inside a call just continues. */
  datatype Action = CallEnter | CallTryEnter | CallLeave | Continue

  predicate Enabled(s: State, t: Tid, a: Action) {
    var th := s.Get(t);
    match th.pc
    case Idle => a != Continue && (a == CallLeave ==> th.depth > 0)
    case EnterWait => a == Continue && s.semaphore > 0
    case _ => a == Continue
  }

  function Goto(s: State, t: Tid, pc: Pc, depth: nat): State {
    s.(threads := s.threads[t := Thread(pc, depth)])
  }

  /** One step of thread `t`. */
  function Next(s: State, t: Tid, a: Action): State
    requires Enabled(s, t, a)
  {
    var th := s.Get(t);
    var d := th.depth;
    match th.pc
    case Idle =>
      (match a
       case CallEnter => Goto(s, t, EnterCompare(MAX_SPIN), d)
       case CallTryEnter => Goto(s, t, TryCompare, d)
       case _ => Goto(s, t, LeaveCount, d))
    case EnterCompare(k) => Goto(s, t, if s.owner == t then EnterNest else EnterLoad(k), d)
    case EnterLoad(k) => Goto(s, t, if s.lockQueue == 0 then EnterCas(k) else EnterYield(k), d)
    case EnterCas(k) =>
      if s.lockQueue == 0 then Goto(s.(lockQueue := 1), t, EnterOwn, d + 1) else Goto(s, t, EnterYield(k), d)
    case EnterYield(k) => Goto(s, t, if k <= 1 then EnterQueue else EnterCompare(k - 1), d)
    case EnterNest => Goto(s.(lockQueue := s.lockQueue + 1), t, EnterOwn, d + 1)
    case EnterQueue =>
      var s' := s.(lockQueue := s.lockQueue + 1);
      if s'.lockQueue > 1 then Goto(s', t, EnterWait, d) else Goto(s', t, EnterOwn, d + 1)
    case EnterWait => Goto(s.(semaphore := s.semaphore - 1), t, EnterOwn, d + 1)
    case EnterOwn => Goto(s.(owner := t), t, EnterCount, d)
    case EnterCount => Goto(s.(recursion := s.recursion + 1), t, Idle, d)
    case TryCompare => Goto(s, t, if s.owner == t then TryNest else TryCas, d)
    case TryCas => if s.lockQueue == 0 then Goto(s.(lockQueue := 1), t, TryOwn, d + 1) else Goto(s, t, Idle, d)
    case TryOwn => Goto(s.(owner := t), t, TryCount, d)
    case TryNest => Goto(s.(lockQueue := s.lockQueue + 1), t, TryCount, d + 1)
    case TryCount => Goto(s.(recursion := s.recursion + 1), t, Idle, d)
    case LeaveCount => Goto(s.(recursion := s.recursion - 1), t, LeaveRead, d)
    case LeaveRead => Goto(s, t, if s.recursion == 0 then LeaveDisown else LeaveQueue, d)
    case LeaveDisown => Goto(s.(owner := 0), t, LeaveQueue, d)
    case LeaveQueue =>
      var s' := s.(lockQueue := s.lockQueue - 1);
      Goto(s', t, if s'.lockQueue > 0 then LeaveTest else Idle, if d > 0 then d - 1 else 0)
    case LeaveTest => Goto(s, t, if s.recursion == 0 then LeaveSignal else Idle, d)
    case LeaveSignal => Goto(s.(semaphore := s.semaphore + 1), t, Idle, d)
  }

  // ----- Runs -----

  datatype Move = Move(t: Tid, a: Action)

  predicate IsStep(s: State, m: Move, s': State) {
    Enabled(s, m.t, m.a) && s' == Next(s, m.t, m.a)
  }

  /** Names a position of a run, so that the steps of a run are looked at only where a proof asks for them. */
  predicate At(i: nat) {
    true
  }

  /** A finite run: the moves in order, and the states before, between and after them. */
  datatype Run = Run(states: seq<State>, moves: seq<Move>)
  {
    predicate Valid() {
      && |states| == |moves| + 1
      && forall i: nat {:trigger At(i)} | i < |moves| && At(i) :: IsStep(states[i], moves[i], states[i + 1])
    }

    function First(): State
      requires Valid()
    {
      states[0]
    }

    function Last(): State
      requires Valid()
    {
      states[|moves|]
    }
  }

  predicate FromInit(run: Run, s: State) {
    run.Valid() && Initial(run.First()) && run.Last() == s
  }

  ghost predicate Reachable(s: State) {
    exists run :: FromInit(run, s)
  }

  // ----- Who has what -----

  /** A thread that has given up the lock and has still to signal the semaphore. */
  predicate Waking(th: Thread) {
    th.depth == 0 && (th.pc == LeaveTest || th.pc == LeaveSignal)
  }

  ghost function HolderSet(m: map<Tid, Thread>): set<Tid> {
    set t | t in m && m[t].depth > 0
  }

  ghost function WaiterSet(m: map<Tid, Thread>): set<Tid> {
    set t | t in m && m[t].pc == EnterWait
  }

  ghost function WakerSet(m: map<Tid, Thread>): set<Tid> {
    set t | t in m && Waking(m[t])
  }

  ghost function Holders(m: map<Tid, Thread>): nat {
    |HolderSet(m)|
  }

  ghost function Waiters(m: map<Tid, Thread>): nat {
    |WaiterSet(m)|
  }

  ghost function Wakers(m: map<Tid, Thread>): nat {
    |WakerSet(m)|
  }

  // ----- The invariant -----

  /** What `owner` and `recursion` say while thread `t`, at `pc`, holds the lock `depth` times. */
  predicate HolderOk(owner: nat, recursion: int, t: Tid, th: Thread) {
    var d := th.depth;
    match th.pc
    case EnterOwn => recursion == d - 1 && owner == (if d == 1 then 0 else t)
    case EnterCount => recursion == d - 1 && owner == t
    case TryOwn => d == 1 && recursion == 0 && owner == 0
    case TryCount => recursion == d - 1 && owner == t
    case LeaveRead => recursion == d - 1 && owner == t
    case LeaveDisown => d == 1 && recursion == 0 && owner == t
    case LeaveQueue => recursion == d - 1 && owner == (if d == 1 then 0 else t)
    case _ => recursion == d && owner == t
  }

  /** Program points that are reached only without the lock. */
  predicate Outside(pc: Pc) {
    pc.EnterLoad? || pc.EnterCas? || pc.EnterYield? || pc.EnterQueue? || pc.EnterWait? || pc.TryCas? || pc.LeaveSignal?
  }

  /** Program points that are reached only with the lock. */
  predicate Inside(pc: Pc) {
    || pc.EnterNest? || pc.EnterOwn? || pc.EnterCount? || pc.TryOwn? || pc.TryNest? || pc.TryCount?
    || pc.LeaveCount? || pc.LeaveRead? || pc.LeaveDisown? || pc.LeaveQueue?
  }

  predicate PcOk(th: Thread) {
    (Outside(th.pc) ==> th.depth == 0) && (Inside(th.pc) ==> th.depth > 0)
  }

  ghost predicate Inv(s: State) {
    var m := s.threads;
    && (forall t | t in m :: PcOk(m[t]))
    && (forall t | t in m && m[t].depth > 0 ::
          HolderOk(s.owner, s.recursion, t, m[t]) && s.lockQueue == m[t].depth + Waiters(m))
    && (Holders(m) == 0 ==> s.lockQueue == Waiters(m) && s.owner == 0 && s.recursion == 0)
    && Holders(m) + Wakers(m) + s.semaphore == (if s.lockQueue > 0 then 1 else 0)
  }

  function One(b: bool): nat {
    if b then 1 else 0
  }

  lemma Toggle(a: set<Tid>, b: set<Tid>, t: Tid)
    requires a - {t} == b - {t}
    ensures |b| == |a| + One(t in b) - One(t in a)
  {
    assert a == (a - {t}) + if t in a then {t} else {};
    assert b == (b - {t}) + if t in b then {t} else {};
  }

  /** Moving one thread changes the three counts by that thread alone. */
  lemma CountsAfter(m: map<Tid, Thread>, t: Tid, th: Thread)
    ensures var o := if t in m then m[t] else Thread(Idle, 0); var m' := m[t := th];
      && Holders(m') == Holders(m) + One(th.depth > 0) - One(o.depth > 0)
      && Waiters(m') == Waiters(m) + One(th.pc == EnterWait) - One(o.pc == EnterWait)
      && Wakers(m') == Wakers(m) + One(Waking(th)) - One(Waking(o))
  {
    var m' := m[t := th];
    Toggle(HolderSet(m), HolderSet(m'), t);
    Toggle(WaiterSet(m), WaiterSet(m'), t);
    Toggle(WakerSet(m), WakerSet(m'), t);
  }

  lemma Counted(m: map<Tid, Thread>, t: Tid)
    requires t in m
    ensures m[t].depth > 0 ==> Holders(m) > 0
    ensures m[t].pc == EnterWait ==> Waiters(m) > 0
    ensures Waking(m[t]) ==> Wakers(m) > 0
  {
    CountsAfter(m, t, Thread(Idle, 0));
  }

  lemma SoleHolder(m: map<Tid, Thread>, t: Tid, u: Tid)
    requires t in m && u in m && m[t].depth > 0 && m[u].depth > 0 && Holders(m) <= 1
    ensures t == u
  {
    if t != u {
      CountsAfter(m, t, Thread(Idle, 0));
      Counted(m[t := Thread(Idle, 0)], u);
    }
  }

  lemma SomeHolder(m: map<Tid, Thread>) returns (t: Tid)
    requires Holders(m) > 0
    ensures t in m && m[t].depth > 0
  {
    t :| t in HolderSet(m);
  }

  lemma InvInit(s: State)
    requires Initial(s)
    ensures Inv(s)
  {
  }

  /** What is known about thread `t` before it moves, with `h` holders, `q` waiters and `w` wakers in all. */
  predicate Ready(s: State, t: Tid, h: nat, q: nat, w: nat) {
    var th := s.Get(t);
    && PcOk(th) && s.lockQueue >= 0
    && h + w + s.semaphore == One(s.lockQueue > 0)
    && (th.depth > 0 ==> HolderOk(s.owner, s.recursion, t, th) && s.lockQueue == th.depth + q && h == 1)
    && (Waking(th) ==> w == 1)
    && (h == 0 ==> s.lockQueue == q && s.owner == 0 && s.recursion == 0)
    && (th.depth == 0 ==> s.owner != t)
    && (th.pc == EnterWait ==> s.lockQueue > 0)
  }

  /** The books still balance when thread `t` has moved from `s` to `s'`. */
  predicate Balanced(s: State, t: Tid, s': State, h: nat, w: nat) {
    var th, th' := s.Get(t), s'.Get(t);
    && s'.threads == s.threads[t := th'] && PcOk(th')
    && s'.lockQueue - th'.depth - One(th'.pc == EnterWait) == s.lockQueue - th.depth - One(th.pc == EnterWait)
    && h - One(th.depth > 0) + One(th'.depth > 0) + w - One(Waking(th)) + One(Waking(th')) + s'.semaphore
       == One(s'.lockQueue > 0)
    && (th'.depth > 0 ==> HolderOk(s'.owner, s'.recursion, t, th') && (th.depth > 0 || h == 0))
    && (th'.depth == 0 && th.depth > 0 ==> s'.owner == 0 && s'.recursion == 0)
    && (th'.depth == 0 && th.depth == 0 ==> s'.owner == s.owner && s'.recursion == s.recursion)
  }

  lemma Before(s: State, t: Tid)
    requires Inv(s)
    ensures Ready(s, t, Holders(s.threads), Waiters(s.threads), Wakers(s.threads))
  {
    if t in s.threads {
      Counted(s.threads, t);
    }
    if Holders(s.threads) > 0 {
      var h := SomeHolder(s.threads);
    }
  }

  lemma Afterwards(s: State, t: Tid, s': State)
    requires Inv(s) && Balanced(s, t, s', Holders(s.threads), Wakers(s.threads))
    ensures Inv(s')
  {
    var m, m' := s.threads, s'.threads;
    CountsAfter(m, t, s'.Get(t));
    Before(s, t);
    forall u | u in m' && m'[u].depth > 0
      ensures HolderOk(s'.owner, s'.recursion, u, m'[u]) && s'.lockQueue == m'[u].depth + Waiters(m')
    {
      if u != t {
        Before(s, u);
        if s.Get(t).depth > 0 {
          SoleHolder(m, t, u);
        }
      }
    }
  }

  /** Program points of Leave. */
  predicate Leaving(pc: Pc) {
    pc.LeaveCount? || pc.LeaveRead? || pc.LeaveDisown? || pc.LeaveQueue? || pc.LeaveTest? || pc.LeaveSignal?
  }

  /** A step of the thread that has the lock. */
  lemma HolderStep(s: State, t: Tid, a: Action, h: nat, q: nat, w: nat)
    requires Ready(s, t, h, q, w) && Enabled(s, t, a) && s.Get(t).depth > 0
    ensures Balanced(s, t, Next(s, t, a), h, w)
  {
    if Leaving(s.Get(t).pc) {
      HolderLeaves(s, t, a, h, q, w);
    } else {
      HolderEnters(s, t, a, h, q, w);
    }
  }

  lemma HolderLeaves(s: State, t: Tid, a: Action, h: nat, q: nat, w: nat)
    requires Ready(s, t, h, q, w) && Enabled(s, t, a) && s.Get(t).depth > 0 && Leaving(s.Get(t).pc)
    ensures Balanced(s, t, Next(s, t, a), h, w)
  {
  }

  lemma HolderEnters(s: State, t: Tid, a: Action, h: nat, q: nat, w: nat)
    requires Ready(s, t, h, q, w) && Enabled(s, t, a) && s.Get(t).depth > 0 && !Leaving(s.Get(t).pc)
    ensures Balanced(s, t, Next(s, t, a), h, w)
  {
  }

  /** A step of a thread that does not have the lock: one that waits, owes a signal, spins, or is idle. */
  lemma OutsiderStep(s: State, t: Tid, a: Action, h: nat, q: nat, w: nat)
    requires Ready(s, t, h, q, w) && Enabled(s, t, a) && s.Get(t).depth == 0
    ensures Balanced(s, t, Next(s, t, a), h, w)
  {
    if s.Get(t).pc == Idle || s.Get(t).pc == LeaveTest || s.Get(t).pc == LeaveSignal {
      OutsiderLeaves(s, t, a, h, q, w);
    } else {
      OutsiderEnters(s, t, a, h, q, w);
    }
  }

  lemma OutsiderLeaves(s: State, t: Tid, a: Action, h: nat, q: nat, w: nat)
    requires Ready(s, t, h, q, w) && Enabled(s, t, a) && s.Get(t).depth == 0
    requires s.Get(t).pc == Idle || s.Get(t).pc == LeaveTest || s.Get(t).pc == LeaveSignal
    ensures Balanced(s, t, Next(s, t, a), h, w)
  {
  }

  lemma OutsiderEnters(s: State, t: Tid, a: Action, h: nat, q: nat, w: nat)
    requires Ready(s, t, h, q, w) && Enabled(s, t, a) && s.Get(t).depth == 0
    requires s.Get(t).pc != Idle && s.Get(t).pc != LeaveTest && s.Get(t).pc != LeaveSignal
    ensures Balanced(s, t, Next(s, t, a), h, w)
  {
  }

  /** Every step of every thread keeps the invariant. */
  lemma InvStep(s: State, t: Tid, a: Action)
    requires Inv(s) && Enabled(s, t, a)
    ensures Inv(Next(s, t, a))
  {
    var h, q, w := Holders(s.threads), Waiters(s.threads), Wakers(s.threads);
    Before(s, t);
    if s.Get(t).depth > 0 {
      HolderStep(s, t, a, h, q, w);
    } else {
      OutsiderStep(s, t, a, h, q, w);
    }
    Afterwards(s, t, Next(s, t, a));
  }

  // ----- What holds over every run -----

  lemma {:induction false} InvRun(run: Run, n: nat)
    requires run.Valid() && n <= |run.moves| && Inv(run.First())
    ensures Inv(run.states[n])
  {
    if n > 0 {
      InvRun(run, n - 1);
      assert At(n - 1);
      InvStep(run.states[n - 1], run.moves[n - 1].t, run.moves[n - 1].a);
    }
  }

  lemma InvLast(run: Run)
    requires run.Valid() && Inv(run.First())
    ensures Inv(run.Last())
  {
    InvRun(run, |run.moves|);
  }

  lemma ReachableInv(s: State)
    requires Reachable(s)
    ensures Inv(s)
  {
    var run :| FromInit(run, s);
    InvInit(run.First());
    InvLast(run);
  }

  /** At most one thread has the lock, and `owning_thread_` and `recursion_` then describe it exactly. */
  lemma MutualExclusion(s: State, t: Tid, u: Tid)
    requires Reachable(s)
    ensures s.Get(t).depth > 0 && s.Get(u).depth > 0 ==> t == u
    ensures s.Get(t).pc == Idle && s.Get(t).depth > 0 ==> s.owner == t && s.recursion == s.Get(t).depth
    ensures s.Get(t).pc == Idle ==> (s.owner == t <==> s.Get(t).depth > 0)
  {
    ReachableInv(s);
    Before(s, t);
    Before(s, u);
    if s.Get(t).depth > 0 && s.Get(u).depth > 0 {
      SoleHolder(s.threads, t, u);
    }
  }

  /** `lock_queue_` is the acquisitions of the thread that has the lock plus the threads waiting on the semaphore. */
  lemma QueueAccounting(s: State, t: Tid)
    requires Reachable(s)
    ensures s.Get(t).depth > 0 ==> s.lockQueue == s.Get(t).depth + |WaiterSet(s.threads)|
    ensures HolderSet(s.threads) == {} ==>
      s.lockQueue == |WaiterSet(s.threads)| && s.owner == 0 && s.recursion == 0
  {
    ReachableInv(s);
    Before(s, t);
  }

  /** Whoever gets the lock finds it cleared by the previous owner: this is what the two checks after the wait,
      the check in TryEnter and the comparison before queueing rely on. */
  lemma NewHolder(s: State, t: Tid, a: Action)
    requires Reachable(s) && Enabled(s, t, a)
    requires s.Get(t).depth == 0 < Next(s, t, a).Get(t).depth
    ensures HolderSet(s.threads) == {} && s.owner == 0 && s.recursion == 0
    ensures HolderSet(Next(s, t, a).threads) == {t} && Next(s, t, a).Get(t).depth == 1
  {
    ReachableInv(s);
    Before(s, t);
    CountsAfter(s.threads, t, Next(s, t, a).Get(t));
    var holders := HolderSet(Next(s, t, a).threads);
    assert t in holders && |holders - {t}| == 0;
    assert holders == (holders - {t}) + {t};
  }

  /** A thread that queues or waits is not the owner; once it has waited, or has got the lock otherwise, nobody is; a
      thread that leaves is the owner, and has something to leave. */
  lemma ChecksHold(s: State, t: Tid)
    requires Reachable(s)
    ensures s.Get(t).pc == EnterWait || s.Get(t).pc == EnterQueue ==> s.owner != t
    ensures s.Get(t).pc == EnterOwn && s.Get(t).depth == 1 ==> s.owner == 0 && s.recursion == 0
    ensures s.Get(t).pc == LeaveCount ==> s.owner == t && s.recursion >= 1
    ensures s.Get(t).pc == TryOwn ==> s.recursion == 0
    ensures s.Get(t).pc == LeaveQueue ==> s.lockQueue >= 1
    ensures s.Get(t).pc == LeaveTest ==> (s.recursion == 0 <==> s.Get(t).depth == 0)
  {
    ReachableInv(s);
    Before(s, t);
  }

  /** No wakeup is lost and none is surplus: the semaphore is 0 or 1, and while anybody is queued exactly one of
      these exists: a thread with the lock, a leaver that owes a signal, or the signal itself. */
  lemma SingleToken(s: State)
    requires Reachable(s)
    ensures s.semaphore <= 1
    ensures s.lockQueue > 0 <==> |HolderSet(s.threads)| + |WakerSet(s.threads)| + s.semaphore == 1
    ensures s.lockQueue == 0 <==> |HolderSet(s.threads)| + |WakerSet(s.threads)| + s.semaphore == 0
    ensures WaiterSet(s.threads) != {} ==> s.lockQueue > 0
  {
    ReachableInv(s);
    if WaiterSet(s.threads) != {} {
      var t :| t in WaiterSet(s.threads);
      Before(s, t);
    } else {
      Before(s, 1);
    }
  }

  // ----- `depth` is what the client has taken and not given back -----

  /** Calls of Enter and successful calls of TryEnter by `t` that returned in the first `n` moves. */
  ghost function Entered(run: Run, n: nat, t: Tid): nat
    requires run.Valid() && n <= |run.moves|
  {
    if n == 0 then 0
    else
      var pc := run.states[n - 1].Get(t).pc;
      Entered(run, n - 1, t) + One(run.moves[n - 1].t == t && (pc == EnterCount || pc == TryCount))
  }

  /** Calls of Leave that `t` started in the first `n` moves. */
  ghost function Left(run: Run, n: nat, t: Tid): nat
    requires run.Valid() && n <= |run.moves|
  {
    if n == 0 then 0 else Left(run, n - 1, t) + One(run.moves[n - 1] == Move(t, CallLeave))
  }

  /** Acquisitions that `lock_queue_` counts although the call is still under way. */
  function Pending(pc: Pc): nat {
    One(pc.EnterOwn? || pc.EnterCount? || pc.TryOwn? || pc.TryCount?
        || pc.LeaveCount? || pc.LeaveRead? || pc.LeaveDisown? || pc.LeaveQueue?)
  }

  /** Outstanding acquisitions of a thread, as far as its calls have reported them to the client. */
  function Reported(th: Thread): int {
    th.depth - Pending(th.pc)
  }

  lemma DepthStep(s: State, m: Move, s': State, t: Tid)
    requires IsStep(s, m, s') && PcOk(s.Get(t))
    ensures Reported(s'.Get(t)) == Reported(s.Get(t))
      + One(m.t == t && (s.Get(t).pc == EnterCount || s.Get(t).pc == TryCount)) - One(m == Move(t, CallLeave))
  {
    if m.t != t {
      assert s'.Get(t) == s.Get(t);
    } else if Leaving(s.Get(t).pc) {
      DepthLeaves(s, m, s');
    } else {
      DepthEnters(s, m, s');
    }
  }

  lemma DepthLeaves(s: State, m: Move, s': State)
    requires IsStep(s, m, s') && PcOk(s.Get(m.t)) && Leaving(s.Get(m.t).pc)
    ensures Reported(s'.Get(m.t)) == Reported(s.Get(m.t)) && m.a != CallLeave
  {
  }

  lemma DepthEnters(s: State, m: Move, s': State)
    requires IsStep(s, m, s') && PcOk(s.Get(m.t)) && !Leaving(s.Get(m.t).pc)
    ensures Reported(s'.Get(m.t)) == Reported(s.Get(m.t))
      + One(s.Get(m.t).pc == EnterCount || s.Get(m.t).pc == TryCount) - One(m.a == CallLeave)
  {
  }

  lemma ReportedStep(run: Run, n: nat, t: Tid)
    requires run.Valid() && 0 < n <= |run.moves| && Inv(run.states[n - 1])
    ensures Reported(run.states[n].Get(t)) - Reported(run.states[n - 1].Get(t)) ==
            Entered(run, n, t) - Entered(run, n - 1, t) - Left(run, n, t) + Left(run, n - 1, t)
  {
    assert At(n - 1);
    assert PcOk(run.states[n - 1].Get(t)) by { Before(run.states[n - 1], t); }
    DepthStep(run.states[n - 1], run.moves[n - 1], run.states[n], t);
  }

  lemma {:induction false} DepthBalance(run: Run, n: nat, t: Tid)
    requires run.Valid() && n <= |run.moves| && Inv(run.First())
    ensures Reported(run.states[n].Get(t)) == Reported(run.First().Get(t)) + Entered(run, n, t) - Left(run, n, t)
  {
    if n > 0 {
      DepthBalance(run, n - 1, t);
      InvRun(run, n - 1);
      ReportedStep(run, n, t);
    }
  }

  lemma DepthFromNothing(run: Run, t: Tid)
    requires run.Valid() && Inv(run.First()) && run.First().threads == map[]
    ensures Reported(run.Last().Get(t)) == Entered(run, |run.moves|, t) - Left(run, |run.moves|, t)
  {
    DepthBalance(run, |run.moves|, t);
  }

  /** Between calls, a thread holds the lock exactly as often as it has entered more than left, over every run. */
  lemma DepthIsOutstanding(run: Run, s: State, t: Tid)
    requires FromInit(run, s) && s.Get(t).pc == Idle
    ensures s.Get(t).depth == Entered(run, |run.moves|, t) - Left(run, |run.moves|, t)
  {
    InvInit(run.First());
    DepthFromNothing(run, t);
  }

  // ----- No waiter is ever stuck -----

  /** Steps until the thread that has the lock, or owes a signal, has passed it on. */
  function Work(th: Thread): nat {
    10 * th.depth +
    match th.pc
    case Idle => 6
    case EnterCompare(_) => 20
    case EnterNest => 19
    case EnterOwn => 8
    case EnterCount => 7
    case TryCompare => 19
    case TryNest => 18
    case TryOwn => 8
    case TryCount => 7
    case LeaveCount => 5
    case LeaveRead => 4
    case LeaveDisown => 3
    case LeaveQueue => 2
    case LeaveTest => 7
    case LeaveSignal => 1
    case _ => 0
  }

  /** The thread that has the lock finishes its call and leaves; the thread that owes a signal signals. */
  function Unwind(th: Thread): Action {
    if th.pc == Idle then CallLeave else Continue
  }

  lemma UnwindStep(s: State, h: Tid, n: nat, q: nat, w: nat)
    requires Ready(s, h, n, q, w) && (s.Get(h).depth > 0 || Waking(s.Get(h)))
    ensures Enabled(s, h, Unwind(s.Get(h)))
    ensures var s' := Next(s, h, Unwind(s.Get(h)));
      (s'.Get(h).depth > 0 || Waking(s'.Get(h))) ==> Work(s'.Get(h)) < Work(s.Get(h))
    ensures var s' := Next(s, h, Unwind(s.Get(h)));
      s.lockQueue > Pending(s.Get(h).pc) && s'.Get(h).depth == 0 && !Waking(s'.Get(h)) ==> s'.semaphore > 0
  {
  }

  /** From every reachable state a waiting thread can still get the lock, without any new Enter by anybody: it is
      enough that the thread that has the lock leaves it.  The lemma computes the run that does it. */
  lemma WaiterCanEnter(s: State, t: Tid) returns (run: Run)
    requires Reachable(s) && s.Get(t).pc == EnterWait
    ensures run.Valid() && run.First() == s && run.Last().Get(t).depth == 1
    ensures forall m | m in run.moves :: m.a == Continue || m.a == CallLeave
  {
    ReachableInv(s);
    if s.semaphore > 0 {
      run := TakeSignal(s, t);
    } else {
      SingleToken(s);
      assert t in WaiterSet(s.threads);
      var h: Tid;
      if HolderSet(s.threads) != {} {
        h :| h in HolderSet(s.threads);
      } else {
        h :| h in WakerSet(s.threads);
      }
      run := UnwindThenEnter(s, h, t);
    }
  }

  lemma TakeSignal(s: State, t: Tid) returns (run: Run)
    requires Inv(s) && s.Get(t).pc == EnterWait && s.semaphore > 0
    ensures run.Valid() && run.First() == s && run.Last().Get(t).depth == 1
    ensures forall m | m in run.moves :: m.a == Continue
  {
    Before(s, t);
    run := Run([s, Next(s, t, Continue)], [Move(t, Continue)]);
  }

  lemma Prepend(s: State, m: Move, rest: Run) returns (run: Run)
    requires rest.Valid() && IsStep(s, m, rest.First())
    ensures run.Valid() && run.First() == s && run.Last() == rest.Last() && run.moves == [m] + rest.moves
  {
    run := Run([s] + rest.states, [m] + rest.moves);
    forall i: nat | i < |run.moves| && At(i)
      ensures IsStep(run.states[i], run.moves[i], run.states[i + 1])
    {
      if i > 0 {
        assert At(i - 1);
        assert run.states[i] == rest.states[i - 1] && run.moves[i] == rest.moves[i - 1];
      }
    }
  }

  lemma {:induction false} UnwindThenEnter(s: State, h: Tid, t: Tid) returns (run: Run)
    requires Inv(s) && s.Get(t).pc == EnterWait && (s.Get(h).depth > 0 || Waking(s.Get(h)))
    ensures run.Valid() && run.First() == s && run.Last().Get(t).depth == 1
    ensures forall m | m in run.moves :: m.a == Continue || m.a == CallLeave
    decreases Work(s.Get(h))
  {
    var a := Unwind(s.Get(h));
    Before(s, t);
    Before(s, h);
    UnwindStep(s, h, Holders(s.threads), Waiters(s.threads), Wakers(s.threads));
    InvStep(s, h, a);
    var s' := Next(s, h, a);
    var rest;
    if s'.Get(h).depth > 0 || Waking(s'.Get(h)) {
      rest := UnwindThenEnter(s', h, t);
    } else {
      Counted(s.threads, t);
      rest := TakeSignal(s', t);
    }
    run := Prepend(s, Move(h, a), rest);
  }
}
