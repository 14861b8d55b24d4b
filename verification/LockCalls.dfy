/** What the calls of the lock come to, for the client that makes them. */
module LockCalls {
  import opened CriticalSection

  // ----- Calls that nobody else's steps interrupt -----

  /** Only `t` moves: it makes the call `a`, and goes on with it. */
  ghost predicate Alone(run: Run, t: Tid, a: Action) {
    && run.Valid() && run.moves != [] && run.moves[0] == Move(t, a)
    && forall i | 1 <= i < |run.moves| :: run.moves[i] == Move(t, Continue)
  }

  /** From `s` to `s'` only `t` has moved; it is at `th` now, and the lock is as the other arguments say. */
  predicate Moved(s: State, s': State, t: Tid, th: Thread, queue: int, owner: nat, recursion: int, semaphore: int) {
    && s'.threads == s.threads[t := th] && s'.lockQueue == queue && s'.owner == owner
    && s'.recursion == recursion && s'.semaphore == semaphore
  }

  /** The lock is free, or `t` has it. */
  predicate FreeFor(s: State, t: Tid) {
    s.lockQueue == 0 || s.Get(t).depth > 0
  }

  /** What is known of a thread between calls. */
  predicate IdleFacts(s: State, t: Tid) {
    && s.Get(t).pc == Idle && s.lockQueue >= 0 && (s.owner == t <==> s.Get(t).depth > 0)
    && (s.lockQueue == 0 ==> s.semaphore == 0 && s.owner == 0 && s.recursion == 0 && s.Get(t).depth == 0)
    && (s.Get(t).depth > 0 ==> s.lockQueue >= s.Get(t).depth && s.recursion == s.Get(t).depth && s.semaphore == 0)
    && (s.semaphore > 0 ==> s.owner == 0 && s.recursion == 0)
  }

  lemma IdleKnown(s: State, t: Tid)
    requires Reachable(s) && s.Get(t).pc == Idle
    ensures IdleFacts(s, t)
  {
    ReachableInv(s);
    Before(s, t);
  }

  /** Halfway through TryEnter, `s` being the state before the call. */
  predicate Trying(s: State, s': State, t: Tid) {
    var d, th := s.Get(t).depth, s'.Get(t);
    match th.pc
    case TryCompare => Moved(s, s', t, Thread(th.pc, d), s.lockQueue, s.owner, s.recursion, s.semaphore)
    case TryCas => d == 0 && Moved(s, s', t, Thread(th.pc, 0), s.lockQueue, s.owner, s.recursion, s.semaphore)
    case TryOwn =>
      d == 0 && s.lockQueue == 0 && Moved(s, s', t, Thread(th.pc, 1), 1, s.owner, s.recursion, s.semaphore)
    case TryNest => d > 0 && Moved(s, s', t, Thread(th.pc, d), s.lockQueue, s.owner, s.recursion, s.semaphore)
    case TryCount =>
      FreeFor(s, t) && Moved(s, s', t, Thread(th.pc, d + 1), s.lockQueue + 1, t, s.recursion, s.semaphore)
    case Idle =>
      if FreeFor(s, t) then Moved(s, s', t, Thread(Idle, d + 1), s.lockQueue + 1, t, s.recursion + 1, s.semaphore)
      else Moved(s, s', t, Thread(Idle, d), s.lockQueue, s.owner, s.recursion, s.semaphore)
    case _ => false
  }

  lemma TryingStep(s: State, s': State, t: Tid)
    requires IdleFacts(s, t) && Trying(s, s', t) && Enabled(s', t, Continue)
    ensures Trying(s, Next(s', t, Continue), t)
  {
  }

  lemma {:induction false} TryingRun(run: Run, t: Tid, n: nat)
    requires Alone(run, t, CallTryEnter) && IdleFacts(run.First(), t) && 1 <= n <= |run.moves|
    ensures Trying(run.First(), run.states[n], t)
    decreases n
  {
    assert At(n - 1);
    if n > 1 {
      TryingRun(run, t, n - 1);
      TryingStep(run.First(), run.states[n - 1], t);
    }
  }

  /** The call is over, or can only go on when somebody else moves. */
  ghost predicate Ended(run: Run, t: Tid)
    requires run.Valid()
  {
    run.Last().Get(t).pc == Idle || !Enabled(run.Last(), t, Continue)
  }

  /** TryEnter with nobody else moving: it returns; it takes the lock once more if and only if the lock is free or the
      thread's own, and then the thread owns it; and otherwise it changes nothing. */
  lemma TryEnterExactly(run: Run, t: Tid)
    requires Alone(run, t, CallTryEnter) && Reachable(run.First()) && Ended(run, t)
    ensures var s, s' := run.First(), run.Last();
      var d, d' := s.Get(t).depth, s'.Get(t).depth;
      && s'.Get(t).pc == Idle && d' == d + (if s.lockQueue == 0 || d > 0 then 1 else 0)
      && s'.lockQueue == s.lockQueue + d' - d && s'.semaphore == s.semaphore
      && (d' > d ==> s'.owner == t && s'.recursion == d')
      && (d' == d ==> s'.owner == s.owner && s'.recursion == s.recursion)
  {
    assert At(0);
    IdleKnown(run.First(), t);
    TryingRun(run, t, |run.moves|);
  }

  /** Halfway through Enter, `s` being the state before the call. */
  predicate Entering(s: State, s': State, t: Tid) {
    var d, th := s.Get(t).depth, s'.Get(t);
    var waited := if FreeFor(s, t) then 0 else 1;
    match th.pc
    case EnterCompare(_) => Moved(s, s', t, Thread(th.pc, d), s.lockQueue, s.owner, s.recursion, s.semaphore)
    case EnterLoad(_) => d == 0 && Moved(s, s', t, Thread(th.pc, 0), s.lockQueue, s.owner, s.recursion, s.semaphore)
    case EnterCas(_) =>
      d == 0 == s.lockQueue && Moved(s, s', t, Thread(th.pc, 0), 0, s.owner, s.recursion, s.semaphore)
    case EnterYield(_) =>
      !FreeFor(s, t) && Moved(s, s', t, Thread(th.pc, 0), s.lockQueue, s.owner, s.recursion, s.semaphore)
    case EnterQueue =>
      !FreeFor(s, t) && Moved(s, s', t, Thread(th.pc, 0), s.lockQueue, s.owner, s.recursion, s.semaphore)
    case EnterWait =>
      !FreeFor(s, t) && Moved(s, s', t, Thread(th.pc, 0), s.lockQueue + 1, s.owner, s.recursion, s.semaphore)
    case EnterNest => d > 0 && Moved(s, s', t, Thread(th.pc, d), s.lockQueue, s.owner, s.recursion, s.semaphore)
    case EnterOwn =>
      && s.semaphore >= waited
      && Moved(s, s', t, Thread(th.pc, d + 1), s.lockQueue + 1, s.owner, s.recursion, s.semaphore - waited)
    case EnterCount =>
      && s.semaphore >= waited
      && Moved(s, s', t, Thread(th.pc, d + 1), s.lockQueue + 1, t, s.recursion, s.semaphore - waited)
    case Idle =>
      && s.semaphore >= waited
      && Moved(s, s', t, Thread(Idle, d + 1), s.lockQueue + 1, t, s.recursion + 1, s.semaphore - waited)
    case _ => false
  }

  lemma EnteringStep(s: State, s': State, t: Tid)
    requires IdleFacts(s, t) && Entering(s, s', t) && Enabled(s', t, Continue)
    ensures Entering(s, Next(s', t, Continue), t)
  {
  }

  lemma {:induction false} EnteringRun(run: Run, t: Tid, n: nat)
    requires Alone(run, t, CallEnter) && IdleFacts(run.First(), t) && 1 <= n <= |run.moves|
    ensures Entering(run.First(), run.states[n], t)
    decreases n
  {
    assert At(n - 1);
    if n > 1 {
      EnteringRun(run, t, n - 1);
      EnteringStep(run.First(), run.states[n - 1], t);
    }
  }

  /** Enter with nobody else moving: it returns if and only if the lock is free, or the thread's own, or a signal is
      there; then the thread has it once more and owns it.  Only if the lock is neither free nor the thread's own does
      it come to the semaphore, and there it takes the signal or waits. */
  lemma EnterExactly(run: Run, t: Tid)
    requires Alone(run, t, CallEnter) && Reachable(run.First()) && Ended(run, t)
    ensures var s, s' := run.First(), run.Last();
      var d := s.Get(t).depth;
      && (s'.Get(t).pc == Idle <==> s.lockQueue == 0 || d > 0 || s.semaphore > 0)
      && (s'.Get(t).pc == Idle ==> s'.owner == t && s'.recursion == s'.Get(t).depth == d + 1)
      && (s'.Get(t).pc != Idle ==> s'.Get(t) == Thread(EnterWait, 0))
      && s'.lockQueue == s.lockQueue + 1
      && s'.semaphore == (if s.lockQueue == 0 || d > 0 || s.semaphore == 0 then s.semaphore else s.semaphore - 1)
    ensures run.First().lockQueue == 0 || run.First().Get(t).depth > 0 ==>
      forall n | 0 <= n < |run.states| :: run.states[n].Get(t).pc != EnterWait
  {
    var s := run.First();
    assert At(0);
    IdleKnown(s, t);
    EnteringRun(run, t, |run.moves|);
    if s.lockQueue == 0 || s.Get(t).depth > 0 {
      forall n | 0 <= n < |run.states|
        ensures run.states[n].Get(t).pc != EnterWait
      {
        if n > 0 {
          EnteringRun(run, t, n);
        }
      }
    }
  }

  /** Halfway through Leave, `s` being the state before the call. */
  predicate Leaves(s: State, s': State, t: Tid) {
    var d, th := s.Get(t).depth, s'.Get(t);
    var owner := if d == 1 then 0 else t;
    d > 0 &&
    match th.pc
    case LeaveCount => Moved(s, s', t, Thread(th.pc, d), s.lockQueue, t, d, 0)
    case LeaveRead => Moved(s, s', t, Thread(th.pc, d), s.lockQueue, t, d - 1, 0)
    case LeaveDisown => d == 1 && Moved(s, s', t, Thread(th.pc, d), s.lockQueue, t, 0, 0)
    case LeaveQueue => Moved(s, s', t, Thread(th.pc, d), s.lockQueue, owner, d - 1, 0)
    case LeaveTest => s.lockQueue > 1 && Moved(s, s', t, Thread(th.pc, d - 1), s.lockQueue - 1, owner, d - 1, 0)
    case LeaveSignal => s.lockQueue > 1 && d == 1 && Moved(s, s', t, Thread(th.pc, 0), s.lockQueue - 1, 0, 0, 0)
    case Idle => Moved(s, s', t, Thread(Idle, d - 1), s.lockQueue - 1, owner, d - 1, One(d == 1 && s.lockQueue > 1))
    case _ => false
  }

  lemma LeavesStep(s: State, s': State, t: Tid)
    requires IdleFacts(s, t) && Leaves(s, s', t) && Enabled(s', t, Continue)
    ensures Leaves(s, Next(s', t, Continue), t)
  {
  }

  lemma {:induction false} LeavesRun(run: Run, t: Tid, n: nat)
    requires Alone(run, t, CallLeave) && IdleFacts(run.First(), t) && 1 <= n <= |run.moves|
    ensures Leaves(run.First(), run.states[n], t)
    decreases n
  {
    assert At(n - 1);
    if n > 1 {
      LeavesRun(run, t, n - 1);
      LeavesStep(run.First(), run.states[n - 1], t);
    }
  }

  /** Leave with nobody else moving: it returns, the lock is taken once less, the last Leave clears the owner, and the
      last Leave signals just when others are queued. */
  lemma LeaveExactly(run: Run, t: Tid)
    requires Alone(run, t, CallLeave) && Reachable(run.First()) && Ended(run, t)
    ensures var s, s' := run.First(), run.Last();
      var d := s.Get(t).depth;
      && s'.Get(t).pc == Idle && s'.Get(t).depth == d - 1 && s'.recursion == d - 1 && s'.lockQueue == s.lockQueue - 1
      && s'.owner == (if d == 1 then 0 else t) && s'.semaphore == (if d == 1 && s.lockQueue > 1 then 1 else 0)
  {
    assert At(0);
    IdleKnown(run.First(), t);
    LeavesRun(run, t, |run.moves|);
  }

  /** Steps of a call that are still to come at most, unless it has to wait. */
  function StepsLeft(pc: Pc): nat {
    match pc
    case Idle => 0
    case EnterCompare(k) => 4 * k + 13
    case EnterLoad(k) => 4 * k + 12
    case EnterCas(k) => 4 * k + 11
    case EnterYield(k) => 4 * k + 10
    case EnterNest => 4
    case EnterQueue => 4
    case EnterWait => 3
    case EnterOwn => 2
    case EnterCount => 1
    case TryCompare => 4
    case TryCas => 3
    case TryOwn => 2
    case TryNest => 2
    case TryCount => 1
    case LeaveCount => 6
    case LeaveRead => 5
    case LeaveDisown => 4
    case LeaveQueue => 3
    case LeaveTest => 2
    case LeaveSignal => 1
  }

  lemma OneStepLess(s: State, t: Tid)
    requires s.Get(t).pc != Idle && Enabled(s, t, Continue)
    ensures StepsLeft(Next(s, t, Continue).Get(t).pc) < StepsLeft(s.Get(t).pc)
  {
  }

  lemma {:induction false} GoOn(s: State, t: Tid) returns (run: Run)
    ensures run.Valid() && run.First() == s && Ended(run, t) && |run.moves| <= StepsLeft(s.Get(t).pc)
    ensures forall m | m in run.moves :: m == Move(t, Continue)
    decreases StepsLeft(s.Get(t).pc)
  {
    if s.Get(t).pc == Idle || !Enabled(s, t, Continue) {
      run := Run([s], []);
    } else {
      OneStepLess(s, t);
      var rest := GoOn(Next(s, t, Continue), t);
      run := Prepend(s, Move(t, Continue), rest);
    }
  }

  /** Every call can be run alone to where the three statements above say how it ends, in a bounded number of steps,
      however long it spins. */
  lemma CallEnds(s: State, t: Tid, a: Action) returns (run: Run)
    requires s.Get(t).pc == Idle && Enabled(s, t, a)
    ensures Alone(run, t, a) && run.First() == s && Ended(run, t)
    ensures |run.moves| <= (if a == CallEnter then 4 * MAX_SPIN + 14 else 7)
  {
    var rest := GoOn(Next(s, t, a), t);
    run := Prepend(s, Move(t, a), rest);
    forall i | 1 <= i < |run.moves|
      ensures run.moves[i] == Move(t, Continue)
    {
      assert run.moves[i] == rest.moves[i - 1] && rest.moves[i - 1] in rest.moves;
    }
  }

  // ----- Calls among the steps of others -----

  /** Moves `i` to `j` of the run contain one call of `t`, which move `i` makes and which has returned at `j`. */
  ghost predicate OneCall(run: Run, i: nat, j: nat, t: Tid, a: Action) {
    && run.Valid() && i < j <= |run.moves| && run.moves[i] == Move(t, a) && run.states[j].Get(t).pc == Idle
    && forall k | i < k < j :: run.states[k].Get(t).pc != Idle
  }

  /** A step of the call at which the lock was free, or not free, as `free` says. */
  ghost predicate Instant(run: Run, i: nat, k: nat, j: nat, t: Tid, free: bool) {
    i < k < j <= |run.moves| && |run.states| == |run.moves| + 1 && run.moves[k].t == t
    && (run.states[k].lockQueue == 0 <==> free)
  }

  /** How far a TryEnter has come that began with `d` acquisitions; `known` says whether it has been decided whether the
      lock is `free`. */
  predicate Tried(d: nat, th: Thread, known: bool, free: bool) {
    match th.pc
    case TryCompare => th.depth == d
    case TryCas => th.depth == d == 0
    case TryOwn => th.depth == 1 && d == 0 && known && free
    case TryNest => th.depth == d > 0
    case TryCount => th.depth == d + 1 && (d == 0 ==> known && free)
    case Idle => if d > 0 then th.depth == d + 1 else th.depth <= 1 && known && (free <==> th.depth == 1)
    case _ => false
  }

  lemma TriedStep(s: State, t: Tid, d: nat, known: bool, free: bool)
    requires Tried(d, s.Get(t), known, free) && s.Get(t).pc != Idle && Enabled(s, t, Continue)
    requires s.Get(t).pc == TryCompare ==> (s.owner == t <==> d > 0)
    ensures var now := s.Get(t).pc == TryCas;
      Tried(d, Next(s, t, Continue).Get(t), known || now, if now then s.lockQueue == 0 else free)
  {
  }

  lemma OwnerKnown(run: Run, n: nat, t: Tid)
    requires run.Valid() && Inv(run.First()) && n < |run.states| && run.states[n].Get(t).pc == TryCompare
    ensures run.states[n].owner == t <==> run.states[n].Get(t).depth > 0
  {
    InvRun(run, n);
    Before(run.states[n], t);
  }

  predicate Decides(run: Run, n: nat, t: Tid)
    requires n < |run.moves| && n < |run.states|
  {
    run.moves[n].t == t && run.states[n].Get(t).pc == TryCas
  }

  lemma TriedMove(run: Run, n: nat, t: Tid, d: nat, known: bool, free: bool)
    requires run.Valid() && Inv(run.First()) && n < |run.moves| && run.states[n].Get(t).pc != Idle
    requires Tried(d, run.states[n].Get(t), known, free)
    ensures var now := Decides(run, n, t);
      Tried(d, run.states[n + 1].Get(t), known || now, if now then run.states[n].lockQueue == 0 else free)
  {
    assert At(n);
    if run.moves[n].t == t {
      if run.states[n].Get(t).pc == TryCompare {
        OwnerKnown(run, n, t);
      }
      TriedStep(run.states[n], t, d, known, free);
    }
  }

  lemma TriedStarts(run: Run, i: nat, t: Tid)
    requires run.Valid() && i < |run.moves| && run.moves[i] == Move(t, CallTryEnter)
    ensures Tried(run.states[i].Get(t).depth, run.states[i + 1].Get(t), false, false)
  {
    assert At(i);
  }

  lemma {:induction false} TriedAmong(run: Run, i: nat, n: nat, t: Tid) returns (k: nat, known: bool, free: bool)
    requires run.Valid() && Inv(run.First()) && i < n <= |run.moves| && run.moves[i] == Move(t, CallTryEnter)
    requires forall k | i < k < n :: run.states[k].Get(t).pc != Idle
    ensures Tried(run.states[i].Get(t).depth, run.states[n].Get(t), known, free)
    ensures known ==> Instant(run, i, k, n, t, free)
    decreases n
  {
    if n == i + 1 {
      TriedStarts(run, i, t);
      k, known, free := i, false, false;
    } else {
      k, known, free := TriedAmong(run, i, n - 1, t);
      TriedMove(run, n - 1, t, run.states[i].Get(t).depth, known, free);
      if Decides(run, n - 1, t) {
        k, known, free := n - 1, true, run.states[n - 1].lockQueue == 0;
      }
    }
  }

  /** TryEnter among any steps of any threads: a thread that has the lock gets it once more; another thread gets it if
      and only if the lock was free at a step of the call. */
  lemma TryEnterAmong(run: Run, i: nat, j: nat, t: Tid)
    requires OneCall(run, i, j, t, CallTryEnter) && Reachable(run.First())
    ensures var d, d', free := run.states[i].Get(t).depth, run.states[j].Get(t).depth, run.states[j].Get(t).depth == 1;
      if d > 0 then d' == d + 1 else d' <= 1 && exists k :: Instant(run, i, k, j, t, free)
  {
    ReachableInv(run.First());
    var k, known, free := TriedAmong(run, i, j, t);
  }

  /** How far an Enter or a Leave has come that began with `d` acquisitions. */
  predicate OnTheWay(d: nat, th: Thread, a: Action) {
    match th.pc
    case EnterOwn => a == CallEnter && th.depth == d + 1
    case EnterCount => a == CallEnter && th.depth == d + 1
    case LeaveTest => a == CallLeave && th.depth == d - 1
    case LeaveSignal => a == CallLeave && th.depth == d - 1
    case Idle => th.depth == if a == CallEnter then d + 1 else d - 1
    case pc => th.depth == d && if a == CallEnter then Enters(pc) else Leaving(pc) && d > 0
  }

  predicate Enters(pc: Pc) {
    || pc.EnterCompare? || pc.EnterLoad? || pc.EnterCas? || pc.EnterYield? || pc.EnterNest? || pc.EnterQueue?
    || pc.EnterWait?
  }

  lemma OnTheWayStep(s: State, t: Tid, d: nat, a: Action)
    requires OnTheWay(d, s.Get(t), a) && s.Get(t).pc != Idle && Enabled(s, t, Continue) && a in {CallEnter, CallLeave}
    ensures OnTheWay(d, Next(s, t, Continue).Get(t), a)
  {
  }

  lemma {:induction false} OnTheWayAmong(run: Run, i: nat, n: nat, t: Tid, a: Action)
    requires run.Valid() && i < n <= |run.moves| && run.moves[i] == Move(t, a) && a in {CallEnter, CallLeave}
    requires forall k | i < k < n :: run.states[k].Get(t).pc != Idle
    ensures OnTheWay(run.states[i].Get(t).depth, run.states[n].Get(t), a)
    decreases n
  {
    assert At(n - 1);
    if n > i + 1 {
      OnTheWayAmong(run, i, n - 1, t, a);
      if run.moves[n - 1].t == t {
        OnTheWayStep(run.states[n - 1], t, run.states[i].Get(t).depth, a);
      }
    }
  }

  /** Enter and Leave among any steps of any threads: an Enter that returns has taken the lock once more, and a Leave
      that returns has given it back once. */
  lemma EnterAndLeaveAmong(run: Run, i: nat, j: nat, t: Tid)
    ensures OneCall(run, i, j, t, CallEnter) ==> run.states[j].Get(t).depth == run.states[i].Get(t).depth + 1
    ensures OneCall(run, i, j, t, CallLeave) ==> run.states[j].Get(t).depth == run.states[i].Get(t).depth - 1
  {
    if OneCall(run, i, j, t, CallEnter) {
      OnTheWayAmong(run, i, j, t, CallEnter);
    } else if OneCall(run, i, j, t, CallLeave) {
      OnTheWayAmong(run, i, j, t, CallLeave);
    }
  }
}
