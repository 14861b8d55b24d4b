/** When a call of flush_data ends, how, and when it does not end at all. */
module FlushTheorems {
  import opened HttpParser
  import opened ChunkedCoding
  import opened SenderState
  import opened FlushData
  import opened Seqs
  import opened Wrappers

  // ----- A network that blocks -----

  function Blocked(n: nat): (a: seq<Answer>)
    ensures |a| == n && forall i | 0 <= i < n :: a[i] == Blocks
  {
    if n == 0 then [] else [Blocks] + Blocked(n - 1)
  }

  /** Without a document and with nothing left to queue, nothing ever makes the loop stop asking. */
  lemma {:induction false} SpinsOn(m: Message, s: State, source: seq<Answer>, n: nat)
    requires !m.hasDocument && s.header == |m.headers| && s.queued != ""
    ensures FlushFrom(m, s, false, World(source, Blocked(n))) == Flushed(s, Running, World(source, []))
  {
    if n > 0 {
      assert Blocked(n)[1..] == Blocked(n - 1);
      assert Round(m, s, false, World(source, Blocked(n))) == Flow(s, None, World(source, Blocked(n - 1)));
      SpinsOn(m, s, source, n - 1);
    }
  }

  /** Without a document, a blocked write after all headers have been queued spins, unless a write was required before;
      with headers left, or a write required, it waits; with nothing in the buffer the message is complete. */
  lemma BlockedWithoutDocument(m: Message, s: State, required: bool, source: seq<Answer>, n: nat)
    requires !m.hasDocument && s.header <= |m.headers| && n > 0
    ensures var (s', sendRequired) := HeadersQueued(m, s, required);
      var f := FlushFrom(m, s, required, World(source, Blocked(n)));
      && f.state == s'
      && f.result == if s'.queued == "" then Complete else if sendRequired then Waiting else Running
  {
    var w := World(source, Blocked(n));
    var (s', sendRequired) := HeadersQueued(m, s, required);
    assert Blocked(n)[1..] == Blocked(n - 1);
    if s'.queued != "" && !sendRequired {
      assert Round(m, s, required, w) == Flow(s', None, World(source, Blocked(n - 1)));
      SpinsOn(m, s', source, n - 1);
    }
  }

  /** With a document every round either uses one of its answers or requires the write, so blocked writes end the
      call. */
  lemma {:induction false} BlockedWithDocument(m: Message, s: State, required: bool, source: seq<Answer>, n: nat)
    requires m.hasDocument && s.header <= |m.headers| && n > |source|
    ensures FlushFrom(m, s, required, World(source, Blocked(n))).result != Running
    decreases n
  {
    var w := World(source, Blocked(n));
    var f := Round(m, s, required, w);
    assert Blocked(n)[1..] == Blocked(n - 1);
    if f.result == None {
      BlockedRound(m, s, required, w);
      BlockedWithDocument(m, f.state, false, f.world.source, n - 1);
      assert f.world == World(f.world.source, Blocked(n - 1));
    }
  }

  lemma BlockedRound(m: Message, s: State, required: bool, w: World)
    requires m.hasDocument && s.header <= |m.headers| && w.network != [] && w.network[0] == Blocks
    requires Round(m, s, required, w).result == None
    ensures var f := Round(m, s, required, w);
      |f.world.source| < |w.source| && f.world.network == w.network[1..]
  {
  }

  /** What a read of the document uses, and what it leaves in the buffer. */
  lemma DocumentUsed(m: Message, s: State, w: World)
    ensures var (f, sendRequired) := DocumentQueued(m, s, w); var last := LastUsed(w.source, f.world.source);
      && Later(w.source, f.world.source)
      && (f.result.Some? ==> f.result.value == Complete || (f.result.value == Broken && last == Some(Fails)))
      && (f.result == None && f.state.queued == "" ==>
            f.world.source == [] || last == Some(Blocks) || last == Some(Moves(0)))
  {
    if Room(s) > 0 && w.source != [] {
      assert w.source[0] in w.source;
    }
  }

  /** Exactly when the loop has no end while the network blocks: there is no document, all headers are queued, the
      buffer is not empty, and no write was required before. */
  lemma SpinsExactly(m: Message, s: State, required: bool, source: seq<Answer>)
    requires s.header <= |m.headers|
    ensures (forall n :: FlushFrom(m, s, required, World(source, Blocked(n))).result == Running) <==>
      && !m.hasDocument && !required && HeadersQueued(m, s, required).0.header == |m.headers|
      && HeadersQueued(m, s, required).0.queued != ""
  {
    if m.hasDocument {
      BlockedWithDocument(m, s, required, source, |source| + 1);
    } else {
      BlockedWithoutDocument(m, s, required, source, 1);
      var s' := HeadersQueued(m, s, required).0;
      if !required && s'.header == |m.headers| && s'.queued != "" {
        forall n
          ensures FlushFrom(m, s, required, World(source, Blocked(n))).result == Running
        {
          if n > 0 {
            BlockedWithoutDocument(m, s, required, source, n);
          }
        }
      }
    }
  }

  /** The smallest message without a document, and a network that blocks at its first write and at every later one. */
  lemma SmallMessageSpins(n: nat)
    ensures var m := Message("A", [], false, false, "");
      Flush(m, Initial(m), World([], Blocked(n))) == Flushed(Initial(m), Running, World([], []))
  {
    var m := Message("A", [], false, false, "");
    assert Initial(m).queued[0] == 'A';
    assert |Initial(m).queued| < BUFFER_SIZE;
    SpinsOn(m, Initial(m), [], n);
  }

  // ----- Why a call ends -----

  /** What can be said of the answers used, by the way a call ended. */
  predicate EndedBecause(m: Message, s: State, w: World, result: FlushResult, w': World) {
    match result
    case Complete => true
    case Broken => LastUsed(w.network, w'.network) == Some(Fails) || LastUsed(w.source, w'.source) == Some(Fails)
    case Waiting =>
      || LastUsed(w.network, w'.network) == Some(Blocks)
      || (m.hasDocument && s.queued == "" &&
          (w'.source == [] || LastUsed(w.source, w'.source) in {Some(Blocks), Some(Moves(0))}))
    case Running => w'.network == [] && s.queued != ""
  }

  lemma FilledExplained(m: Message, s: State, required: bool, w: World)
    requires Inv(m, s) && Ready(s, required)
    ensures var f := Filled(m, s, required, w).0;
      && Later(w.source, f.world.source) && f.world.network == w.network
      && (f.result.Some? ==> EndedBecause(m, f.state, w, f.result.value, f.world))
      && (f.result == None && f.state.queued == "" && m.hasDocument ==> EndedBecause(m, f.state, w, Waiting, f.world))
  {
    HeadersKeep(m, s, required);
    DocumentUsed(m, HeadersQueued(m, s, required).0, w);
  }

  lemma OfferExplained(m: Message, s: State, sendRequired: bool, w: World)
    requires s.queued != ""
    ensures var f := Offered(s, sendRequired, w);
      && Later(w.network, f.world.network) && f.world.source == w.source
      && (f.result.Some? ==> EndedBecause(m, f.state, w, f.result.value, f.world))
  {
  }

  lemma RoundExplained(m: Message, s: State, required: bool, w: World)
    requires Inv(m, s) && Ready(s, required)
    ensures var f := Round(m, s, required, w);
      && Later(w.source, f.world.source) && Later(w.network, f.world.network)
      && (f.result.Some? ==> EndedBecause(m, f.state, w, f.result.value, f.world))
  {
    FilledExplained(m, s, required, w);
    var (f, sendRequired) := Filled(m, s, required, w);
    if f.result == None && f.state.queued != "" {
      OfferExplained(m, f.state, sendRequired, f.world);
    }
  }

  /** What has been used, up to and after `between`. */
  lemma EndedLater(m: Message, s: State, w: World, between: World, result: FlushResult, w': World)
    requires Later(w.source, between.source) && Later(w.network, between.network)
    requires Later(between.source, w'.source) && Later(between.network, w'.network)
    requires EndedBecause(m, s, between, result, w')
    ensures Later(w.source, w'.source) && Later(w.network, w'.network) && EndedBecause(m, s, w, result, w')
  {
    LaterTransitive(w.source, between.source, w'.source);
    LaterTransitive(w.network, between.network, w'.network);
  }

  /** A call waits only after a blocked write, or for a document that blocks or gives nothing while the buffer is empty;
      it breaks off only after an error; and it is still running only when the network has no answer left. */
  lemma {:induction false} FlushExplained(m: Message, s: State, required: bool, w: World)
    requires Inv(m, s) && Ready(s, required)
    ensures var f := FlushFrom(m, s, required, w);
      && Later(w.source, f.world.source) && Later(w.network, f.world.network)
      && EndedBecause(m, f.state, w, f.result, f.world)
    decreases |w.network|
  {
    RoundExplained(m, s, required, w);
    RoundKeeps(m, s, required, w);
    var f := Round(m, s, required, w);
    if f.result == None {
      FlushExplained(m, f.state, false, f.world);
      var end := FlushFrom(m, f.state, false, f.world);
      EndedLater(m, end.state, w, f.world, end.result, end.world);
    }
  }

  // ----- With a document and a network that neither block nor fail, the message is sent -----

  predicate BothWilling(w: World) {
    Willing(w.source) && Willing(w.network)
  }

  /** An upper bound of the bytes that the network has still to take: even one byte of the document may be a chunk. */
  function ToSend(m: Message, s: State): nat
    requires s.header <= |m.headers|
  {
    |s.queued| + |HeaderTexts(m.headers[s.header..])| + (if s.header < |m.headers| then |CRLF| else 0) +
    if m.hasDocument then 13 * |s.remaining| + (if s.chunkData then |LAST_CHUNK| else 0) else 0
  }

  lemma HeadersToSend(m: Message, s: State, required: bool)
    requires s.header <= |m.headers|
    ensures ToSend(m, HeadersQueued(m, s, required).0) == ToSend(m, s)
  {
    if !required && s.header < |m.headers| {
      HeadersLeft(m.headers, s.header, HeaderStop(m.headers, s.header, |s.queued|));
    }
  }

  lemma HeadersLeft(hs: seq<Header>, i: nat, n: nat)
    requires i <= n <= |hs|
    ensures |HeaderTexts(hs[i..])| == |HeaderTexts(hs[i..n])| + |HeaderTexts(hs[n..])|
    ensures n == |hs| ==> HeaderTexts(hs[n..]) == ""
  {
    HeaderTextsSplit(hs[i..n], hs[n..]);
    assert hs[i..n] + hs[n..] == hs[i..];
  }

  lemma DocumentToSend(m: Message, s: State, w: World)
    requires m.hasDocument && s.header <= |m.headers| && w.source != [] && w.source[0].Moves? && w.source[0].n > 0
    ensures var f := DocumentQueued(m, s, w).0;
      && ToSend(m, f.state) <= ToSend(m, s) && f.world.network == w.network
      && (f.world.source == w.source || f.world.source == w.source[1..])
      && if f.result.Some? then f.result.value == Complete else f.state.queued != ""
  {
  }

  lemma OfferToSend(m: Message, s: State, sendRequired: bool, w: World)
    requires s.header <= |m.headers| && s.queued != "" && w.network != [] && w.network[0].Moves? && w.network[0].n > 0
    ensures var f := Offered(s, sendRequired, w);
      && f.state.header == s.header && ToSend(m, f.state) < ToSend(m, s) && f.result == None
      && f.world == w.(network := w.network[1..])
  {
  }

  /** What a round's first half comes to when document and network are willing. */
  ghost predicate Progresses(m: Message, s: State, w: World, f: Flow)
    requires s.header <= |m.headers| && f.state.header <= |m.headers|
  {
    && ToSend(m, f.state) <= ToSend(m, s) && f.world.network == w.network
    && Willing(f.world.source) && |f.world.source| >= |w.source| - 1
    && if f.result.Some? then f.result.value == Complete else f.state.queued == "" ==> !m.hasDocument
  }

  lemma WillingFilled(m: Message, s: State, required: bool, w: World)
    requires Inv(m, s) && Ready(s, required) && Willing(w.source) && w.source != []
    ensures Progresses(m, s, w, Filled(m, s, required, w).0)
  {
    assert w.source[0] in w.source;
    HeadersToSend(m, s, required);
    HeadersKeep(m, s, required);
    var (s', sendRequired) := HeadersQueued(m, s, required);
    if !sendRequired && m.hasDocument {
      DocumentToSend(m, s', w);
    }
  }

  lemma WillingRound(m: Message, s: State, required: bool, w: World)
    requires Inv(m, s) && Ready(s, required) && BothWilling(w) && w.source != [] && w.network != []
    ensures var f := Round(m, s, required, w);
      if f.result.Some? then f.result.value == Complete
      else
        && ToSend(m, f.state) < ToSend(m, s) && BothWilling(f.world)
        && |f.world.source| >= |w.source| - 1 && |f.world.network| == |w.network| - 1
  {
    WillingFilled(m, s, required, w);
    var (f, sendRequired) := Filled(m, s, required, w);
    if f.result == None && f.state.queued != "" {
      assert f.world.network[0] in w.network;
      OfferToSend(m, f.state, sendRequired, f.world);
    }
  }

  /** Given enough answers, the message is complete. */
  lemma {:induction false} WillingCompletes(m: Message, s: State, required: bool, w: World)
    requires Inv(m, s) && Ready(s, required) && BothWilling(w)
    requires |w.source| > ToSend(m, s) && |w.network| > ToSend(m, s)
    ensures FlushFrom(m, s, required, w).result == Complete
    decreases |w.network|
  {
    var f := Round(m, s, required, w);
    WillingRound(m, s, required, w);
    if f.result == None {
      RoundKeeps(m, s, required, w);
      WillingCompletes(m, f.state, false, f.world);
    }
  }
}
