/** What the sending side of HttpBase has queued and sent, as values, and what every change to it keeps. */
module SenderState {
  import opened HttpParser
  import opened ChunkedCoding
  import opened Seqs

  function HeaderText(h: Header): string {
    h.name + ": " + h.value + CRLF
  }

  /** A header that fits the empty buffer; any other is discarded. */
  predicate Fits(h: Header) {
    |HeaderText(h)| < BUFFER_SIZE - 3
  }

  function HeaderTexts(hs: seq<Header>): string {
    if hs == [] then ""
    else (if Fits(hs[0]) then HeaderText(hs[0]) else "") + HeaderTexts(hs[1..])
  }

  /** What sprintfn and strcpyn leave of a text when the buffer has `room` bytes, one of them for the NUL. */
  function Clip(s: string, room: nat): string {
    if |s| < room then s else if room == 0 then "" else s[..room - 1]
  }

  /** The buffer after the leader has been formatted into it. */
  function Start(leader: string): string {
    Clip(leader, BUFFER_SIZE) + Clip(CRLF, BUFFER_SIZE - |Clip(leader, BUFFER_SIZE)|)
  }

  /** Everything sent before the document, once `n` of the headers are done with. */
  function Head(leader: string, hs: seq<Header>, n: nat): string
    requires n <= |hs|
  {
    var s := Start(leader);
    s + HeaderTexts(hs[..n]) +
    if n < |hs| then "" else if n == 0 then Clip(CRLF, BUFFER_SIZE - |s|) else CRLF
  }

  lemma {:induction false} ChunksAppend(ps: seq<string>, p: string)
    ensures Chunks(ps + [p]) == Chunks(ps) + Chunk(p) && Concat(ps + [p]) == Concat(ps) + p
  {
    if ps == [] {
      assert ps + [p] == [p] && [p][1..] == [];
      assert Chunk(p) + "" == Chunk(p) && p + "" == p;
    } else {
      ChunksAppend(ps[1..], p);
      assert (ps + [p])[1..] == ps[1..] + [p];
      Seqs.Assoc(Chunk(ps[0]), Chunks(ps[1..]), Chunk(p));
      Seqs.Assoc(ps[0], Concat(ps[1..]), p);
    }
  }

  // ----- What has been sent and queued, as values -----

  datatype Message = Message(leader: string, headers: seq<Header>, hasDocument: bool, chunked: bool, document: string)

  /** Bytes the network has taken, bytes in the buffer, headers done with, whether chunking is still on, what the
      reads of the document have returned, and what they have not returned yet. */
  datatype State = State(
    wire: string, queued: string, header: nat, chunkData: bool, pieces: seq<string>, remaining: string)

  /** The body as far as it has been queued. */
  function Sent(m: Message, s: State): string {
    if !m.chunked then Concat(s.pieces) else Chunks(s.pieces) + if s.chunkData then "" else LAST_CHUNK
  }

  ghost predicate Inv(m: Message, s: State) {
    && s.header <= |m.headers|
    && s.wire + s.queued == Head(m.leader, m.headers, s.header) + Sent(m, s)
    && Concat(s.pieces) + s.remaining == m.document
    && (forall p | p in s.pieces :: |p| <= BUFFER_SIZE)
    && (s.header < |m.headers| ==> s.pieces == [] && s.chunkData == m.chunked)
    && (s.chunkData ==> m.chunked)
    && (m.chunked && !s.chunkData ==> s.remaining == "")
    && (!m.hasDocument ==> m.document == "" && s.chunkData == m.chunked)
  }

  /** After send, before its call of flush_data. */
  function Initial(m: Message): State {
    var start := Start(m.leader);
    State("", start + if m.headers == [] then Clip(CRLF, BUFFER_SIZE - |start|) else "", 0, m.chunked, [], m.document)
  }

  lemma InitialInv(m: Message)
    requires !m.hasDocument ==> m.document == ""
    ensures Inv(m, Initial(m)) && |Initial(m).queued| <= BUFFER_SIZE
  {
    assert m.headers[..0] == [] && HeaderTexts([]) == "";
  }

  /** Everything has been taken by the network. */
  predicate AllSent(m: Message, s: State) {
    s.queued == "" && s.header == |m.headers| && s.remaining == "" && (m.hasDocument ==> !s.chunkData)
  }

  /** Headers `s.header` to `n` are queued, and the blank line after the last of them. */
  function WithHeaders(m: Message, s: State, n: nat): State
    requires s.header <= n <= |m.headers|
  {
    s.(header := n, queued := s.queued + HeaderTexts(m.headers[s.header..n]) + if n < |m.headers| then "" else CRLF)
  }

  /** A read of the document has returned `d`.  After the last chunk it can only be nothing, and is no chunk. */
  function WithPiece(m: Message, s: State, d: string): State
    requires d <= s.remaining
  {
    s.(pieces := s.pieces + if m.chunked && !s.chunkData then [] else [d], remaining := s.remaining[|d|..],
       queued := s.queued + if s.chunkData then Chunk(d) else d)
  }

  /** The document has ended: the last chunk is queued and chunking is off. */
  function WithLastChunk(s: State): State {
    s.(queued := s.queued + LAST_CHUNK, chunkData := false)
  }

  /** The network has taken `n` bytes. */
  function Written(s: State, n: nat): State
    requires n <= |s.queued|
  {
    s.(wire := s.wire + s.queued[..n], queued := s.queued[n..])
  }

  lemma {:induction false} HeaderTextsSplit(hs: seq<Header>, gs: seq<Header>)
    ensures HeaderTexts(hs + gs) == HeaderTexts(hs) + HeaderTexts(gs)
  {
    if hs == [] {
      assert hs + gs == gs;
    } else {
      HeaderTextsSplit(hs[1..], gs);
      assert (hs + gs)[1..] == hs[1..] + gs;
      Seqs.Assoc(if Fits(hs[0]) then HeaderText(hs[0]) else "", HeaderTexts(hs[1..]), HeaderTexts(gs));
    }
  }

  /** `queued` is what was there before, and headers `i` to `j`. */
  ghost predicate Holds(queued: string, before: string, hs: seq<Header>, i: nat, j: nat) {
    i <= j <= |hs| && queued == before + HeaderTexts(hs[i..j])
  }

  lemma HoldsOneMore(queued: string, before: string, hs: seq<Header>, i: nat, j: nat)
    requires j < |hs| && Holds(queued, before, hs, i, j)
    ensures Holds(queued + if Fits(hs[j]) then HeaderText(hs[j]) else "", before, hs, i, j + 1)
  {
    HeaderTextsSplit(hs[i..j], [hs[j]]);
    Seqs.OneMore(hs, i, j);
    assert HeaderTexts([hs[j]]) == (if Fits(hs[j]) then HeaderText(hs[j]) else "") + HeaderTexts([]);
    Seqs.Assoc(before, HeaderTexts(hs[i..j]), HeaderTexts([hs[j]]));
  }

  lemma WithHeadersKeeps(m: Message, s: State, n: nat)
    requires Inv(m, s) && s.header < |m.headers| && s.header <= n <= |m.headers|
    ensures Inv(m, WithHeaders(m, s, n))
  {
    var start, done, more := Start(m.leader), HeaderTexts(m.headers[..s.header]), HeaderTexts(m.headers[s.header..n]);
    var end := if n < |m.headers| then "" else CRLF;
    HeaderTextsSplit(m.headers[..s.header], m.headers[s.header..n]);
    assert m.headers[..s.header] + m.headers[s.header..n] == m.headers[..n];
    HeadAppend(start, done, more, end, s.wire, s.queued);
  }

  lemma HeadAppend(start: string, done: string, more: string, end: string, wire: string, queued: string)
    requires wire + queued == start + done
    ensures wire + (queued + more + end) == start + (done + more) + end
  {
    Seqs.Assoc4(start, done, more, end);
    Seqs.Assoc(queued, more, end);
    Seqs.Assoc(wire, queued, more + end);
  }

  lemma WithPieceKeeps(m: Message, s: State, d: string)
    requires Inv(m, s) && s.header == |m.headers| && m.hasDocument && d <= s.remaining && |d| <= BUFFER_SIZE
    ensures Inv(m, WithPiece(m, s, d))
  {
    Prefix(s.remaining, d);
    if m.chunked && !s.chunkData {
      assert WithPiece(m, s, d) == s;
    } else {
      ChunksAppend(s.pieces, d);
      Seqs.Assoc(Concat(s.pieces), d, s.remaining[|d|..]);
      SentAppend(m, s, d);
      BodyAppend(m, s, WithPiece(m, s, d), if m.chunked then Chunk(d) else d);
    }
  }

  lemma Prefix(s: string, d: string)
    requires d <= s
    ensures d + s[|d|..] == s
  {
  }

  lemma SentAppend(m: Message, s: State, d: string)
    requires s.chunkData == m.chunked && d <= s.remaining
    ensures Sent(m, WithPiece(m, s, d)) == Sent(m, s) + if m.chunked then Chunk(d) else d
  {
    ChunksAppend(s.pieces, d);
    assert Chunks(s.pieces) + "" == Chunks(s.pieces) && Chunks(s.pieces + [d]) + "" == Chunks(s.pieces + [d]);
  }

  lemma WithLastChunkKeeps(m: Message, s: State)
    requires Inv(m, s) && s.header == |m.headers| && s.chunkData && s.remaining == "" && m.hasDocument
    ensures Inv(m, WithLastChunk(s))
  {
    BodyAppend(m, s, WithLastChunk(s), LAST_CHUNK);
  }

  lemma BodyAppend(m: Message, s: State, s': State, more: string)
    requires Inv(m, s) && s'.wire == s.wire && s'.header == s.header
    requires s'.queued == s.queued + more && Sent(m, s') == Sent(m, s) + more
    ensures s'.wire + s'.queued == Head(m.leader, m.headers, s'.header) + Sent(m, s')
  {
    Seqs.Assoc(s.wire, s.queued, more);
    Seqs.Assoc(Head(m.leader, m.headers, s.header), Sent(m, s), more);
  }

  lemma WrittenKeeps(m: Message, s: State, n: nat)
    requires Inv(m, s) && n <= |s.queued|
    ensures Inv(m, Written(s, n))
  {
    Seqs.Split(s.queued, n);
    Seqs.Assoc(s.wire, s.queued[..n], s.queued[n..]);
  }
}
