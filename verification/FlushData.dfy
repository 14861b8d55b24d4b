/** flush_data as a function of what the document and the network answer, and when it ends how. */
module FlushData {
  import opened Arithmetic
  import opened HttpParser
  import opened ChunkedCoding
  import opened SenderState
  import opened Seqs
  import opened Wrappers

  /** The answers that are to come: the document's to its reads, the network's to its writes.  A document that has no
      answer left blocks. */
  datatype World = World(source: seq<Answer>, network: seq<Answer>)

  /** How a call ends: the message is complete; an error ended it; or the network or the document has to signal first.
      Running is no end: the call has used up the network's answers and asks again. */
  datatype FlushResult = Complete | Broken | Waiting | Running

  /** A state and the world after it, and the result if the call is over. */
  datatype Flow = Flow(state: State, result: Option<FlushResult>, world: World)

  /** Where the queueing of headers stops, from header `i` on with `len` bytes in the buffer. */
  function HeaderStop(hs: seq<Header>, i: nat, len: nat): (n: nat)
    requires i <= |hs|
    ensures i <= n <= |hs|
    decreases |hs| - i
  {
    if i == |hs| then i
    else if len + |HeaderText(hs[i])| < BUFFER_SIZE - 3 then HeaderStop(hs, i + 1, len + |HeaderText(hs[i])|)
    else if len == 0 then HeaderStop(hs, i + 1, len)
    else i
  }

  /** queue_headers, unless a write is required first; the second result says that one is required now. */
  function HeadersQueued(m: Message, s: State, required: bool): (State, bool)
    requires s.header <= |m.headers|
  {
    if required || s.header == |m.headers| then (s, required)
    else
      var n := HeaderStop(m.headers, s.header, |s.queued|);
      (WithHeaders(m, s, n), n < |m.headers|)
  }

  /** How much of the document fits the buffer, with the size and the ends of a chunk. */
  function Room(s: State): int {
    BUFFER_SIZE - |s.queued| - if s.chunkData then CHUNK_DIGITS + 2 + 2 else 0
  }

  datatype DocumentAnswer = Piece(data: string) | Nothing | End | ReadFailed

  /** One read: a document that is at its end says so when it is asked for more than nothing. */
  function DocumentRead(remaining: string, room: nat, a: Answer): DocumentAnswer {
    match a
    case Moves(n) =>
      if n > 0 && remaining == "" then End else Piece(remaining[..Min(n, Min(room, |remaining|))])
    case Blocks => Nothing
    case Fails => ReadFailed
  }

  /** A round's first half: headers, then document data.  The second result says that a write is required. */
  function Filled(m: Message, s: State, required: bool, w: World): (r: (Flow, bool))
    requires s.header <= |m.headers|
    ensures r.0.state.header <= |m.headers| && r.0.world.network == w.network
  {
    var (s1, sendRequired) := HeadersQueued(m, s, required);
    if sendRequired || !m.hasDocument then (Flow(s1, None, w), sendRequired)
    else DocumentQueued(m, s1, w)
  }

  function DocumentQueued(m: Message, s: State, w: World): (r: (Flow, bool))
    ensures r.0.state.header == s.header && r.0.world.network == w.network
  {
    if Room(s) <= 0 || w.source == [] then (Flow(s, None, w), true)
    else
      var w' := w.(source := w.source[1..]);
      match DocumentRead(s.remaining, Room(s), w.source[0])
      case Piece(d) => (Flow(WithPiece(m, s, d), None, w'), false)
      case Nothing => (Flow(s, None, w'), true)
      case End =>
        if s.chunkData then (Flow(WithLastChunk(s), None, w'), true)
        else if s.queued == "" then (Flow(s, Some(Complete), w'), false)
        else (Flow(s, None, w'), true)
      case ReadFailed => (Flow(s, Some(Broken), w'), false)
  }

  /** A round's second half: the buffer is offered to the network. */
  function Offered(s: State, sendRequired: bool, w: World): (f: Flow)
    ensures f.state.header == s.header && (f.result.None? ==> |f.world.network| < |w.network|)
  {
    if w.network == [] then Flow(s, Some(Running), w)
    else
      var w' := w.(network := w.network[1..]);
      match w.network[0]
      case Moves(n) => Flow(Written(s, Min(n, |s.queued|)), None, w')
      case Blocks => Flow(s, if sendRequired then Some(Waiting) else None, w')
      case Fails => Flow(s, Some(Broken), w')
  }

  function Round(m: Message, s: State, required: bool, w: World): (f: Flow)
    requires s.header <= |m.headers|
    ensures f.state.header <= |m.headers| && (f.result.None? ==> |f.world.network| < |w.network|)
  {
    var (f, sendRequired) := Filled(m, s, required, w);
    if f.result.Some? then f
    else if f.state.queued == "" then f.(result := Some(if m.hasDocument then Waiting else Complete))
    else Offered(f.state, sendRequired, f.world)
  }

  datatype Flushed = Flushed(state: State, result: FlushResult, world: World)

  /** The rounds from one on, at whose start a write is required or not. */
  function FlushFrom(m: Message, s: State, required: bool, w: World): Flushed
    requires s.header <= |m.headers|
    decreases |w.network|
  {
    var f := Round(m, s, required, w);
    if f.result.Some? then Flushed(f.state, f.result.value, f.world) else FlushFrom(m, f.state, false, f.world)
  }

  function Flush(m: Message, s: State, w: World): Flushed
    requires s.header <= |m.headers|
  {
    FlushFrom(m, s, |s.queued| >= BUFFER_SIZE, w)
  }

  // ----- What every call keeps -----

  /** What a round may rely on. */
  predicate Ready(s: State, required: bool) {
    |s.queued| <= BUFFER_SIZE && (required ==> s.queued != "")
  }

  lemma {:induction false} HeaderStopFits(hs: seq<Header>, i: nat, len: nat)
    requires i <= |hs|
    ensures var n := HeaderStop(hs, i, len); var len' := len + |HeaderTexts(hs[i..n])|;
      && (len >= BUFFER_SIZE - 3 ==> n == i) && (n > i ==> len' < BUFFER_SIZE - 3) && (n < |hs| ==> len' > 0)
    decreases |hs| - i
  {
    var n := HeaderStop(hs, i, len);
    if i < n {
      assert hs[i..n][0] == hs[i] && hs[i..n][1..] == hs[i + 1..n];
      HeaderStopFits(hs, i + 1, if len + |HeaderText(hs[i])| < BUFFER_SIZE - 3 then len + |HeaderText(hs[i])| else len);
      assert hs[i + 1..i + 1] == [];
    }
  }

  lemma HeadersKeep(m: Message, s: State, required: bool)
    requires Inv(m, s) && Ready(s, required)
    ensures var (s', sendRequired) := HeadersQueued(m, s, required);
      && Inv(m, s') && |s'.queued| <= BUFFER_SIZE && s'.wire == s.wire
      && (sendRequired ==> s'.queued != "") && (!sendRequired ==> s'.header == |m.headers|)
  {
    if !required && s.header < |m.headers| {
      var n := HeaderStop(m.headers, s.header, |s.queued|);
      HeaderStopFits(m.headers, s.header, |s.queued|);
      assert n == s.header ==> m.headers[s.header..n] == [];
      WithHeadersKeeps(m, s, n);
    }
  }

  lemma DocumentKeeps(m: Message, s: State, w: World)
    requires Inv(m, s) && |s.queued| <= BUFFER_SIZE && s.header == |m.headers| && m.hasDocument
    ensures var f := DocumentQueued(m, s, w).0;
      && Inv(m, f.state) && |f.state.queued| <= BUFFER_SIZE && f.state.wire == s.wire
      && (f.result == Some(Complete) ==> AllSent(m, f.state))
      && (f.result == None || f.result == Some(Complete) || f.result == Some(Broken))
  {
    if Room(s) > 0 && w.source != [] {
      match DocumentRead(s.remaining, Room(s), w.source[0])
      case Piece(d) => WithPieceKeeps(m, s, d);
      case Nothing =>
      case End =>
        if s.chunkData {
          WithLastChunkKeeps(m, s);
        }
      case ReadFailed =>
    }
  }

  lemma OfferKeeps(m: Message, s: State, sendRequired: bool, w: World)
    requires Inv(m, s) && |s.queued| <= BUFFER_SIZE
    ensures var f := Offered(s, sendRequired, w);
      Inv(m, f.state) && |f.state.queued| <= |s.queued| && s.wire <= f.state.wire && f.result != Some(Complete)
  {
    if w.network != [] && w.network[0].Moves? {
      WrittenKeeps(m, s, Min(w.network[0].n, |s.queued|));
    }
  }

  lemma FilledKeeps(m: Message, s: State, required: bool, w: World)
    requires Inv(m, s) && Ready(s, required)
    ensures var f := Filled(m, s, required, w).0;
      && Inv(m, f.state) && |f.state.queued| <= BUFFER_SIZE && f.state.wire == s.wire
      && (f.result == Some(Complete) ==> AllSent(m, f.state))
      && (f.result == None && f.state.queued == "" && !m.hasDocument ==> AllSent(m, f.state))
  {
    var (s1, sendRequired) := HeadersQueued(m, s, required);
    HeadersKeep(m, s, required);
    if !sendRequired && m.hasDocument {
      DocumentKeeps(m, s1, w);
    }
  }

  /** Every round keeps what is on the wire and in the buffer to be the head and the body as far as it has been read;
      what is on the wire only grows. */
  lemma RoundKeeps(m: Message, s: State, required: bool, w: World)
    requires Inv(m, s) && Ready(s, required)
    ensures var f := Round(m, s, required, w);
      && Inv(m, f.state) && |f.state.queued| <= BUFFER_SIZE && s.wire <= f.state.wire
      && (f.result == Some(Complete) ==> AllSent(m, f.state))
  {
    FilledKeeps(m, s, required, w);
    var (f, r) := Filled(m, s, required, w);
    OfferKeeps(m, f.state, r, f.world);
  }

  lemma {:induction false} FlushFromKeeps(m: Message, s: State, required: bool, w: World)
    requires Inv(m, s) && Ready(s, required)
    ensures var f := FlushFrom(m, s, required, w);
      && Inv(m, f.state) && |f.state.queued| <= BUFFER_SIZE && s.wire <= f.state.wire
      && (f.result == Complete ==> AllSent(m, f.state))
    decreases |w.network|
  {
    var f := Round(m, s, required, w);
    RoundKeeps(m, s, required, w);
    if f.result == None {
      FlushFromKeeps(m, f.state, false, f.world);
    }
  }

  /** Whatever is answered, a call keeps the invariant, what is on the wire only grows, and a message is complete only
      when all of it has been taken. */
  lemma FlushKeeps(m: Message, s: State, w: World)
    requires Inv(m, s) && |s.queued| <= BUFFER_SIZE
    ensures var f := Flush(m, s, w);
      && Inv(m, f.state) && |f.state.queued| <= BUFFER_SIZE && s.wire <= f.state.wire
      && (f.result == Complete ==> AllSent(m, f.state))
  {
    FlushFromKeeps(m, s, |s.queued| >= BUFFER_SIZE, w);
  }
}
