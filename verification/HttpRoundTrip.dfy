/** What HttpSender puts on the wire, HttpParser takes off it. */
module HttpRoundTrip {
  import opened CText
  import opened HttpParser
  import opened ChunkedCoding
  import opened HttpHeaders
  import opened SenderState
  import opened Seqs

  predicate NoneOf(s: string, bad: string) {
    forall i | 0 <= i < |s| :: s[i] !in bad
  }

  /** A header that survives being one line of text. */
  predicate Clean(h: Header) {
    && NoneOf(h.name, ":\n\0") && NoneOf(h.value, "\n")
    && (h.value != "" ==> !IsSpace(h.value[0]) && !IsSpace(h.value[|h.value| - 1]))
  }

  lemma {:induction false} FindFirst(s: string, c: char, i: nat, n: nat)
    requires i <= n < |s| && s[n] == c != '\0' && forall k | i <= k < n :: s[k] != c && s[k] != '\0'
    ensures Find(s, c, i) == n
    decreases n - i
  {
    if i < n {
      FindFirst(s, c, i + 1, n);
    }
  }

  /** The line of a clean header, trimmed, is taken apart into its name and its value again. */
  lemma HeaderLineParts(h: Header)
    requires Clean(h)
    ensures var line := TrimEnd(h.name + ": " + h.value); var nlen := Find(line, ':');
      && nlen < |line| && line[..nlen] == h.name && line[SkipSpace(line, nlen + 1)..] == h.value
  {
    var text := h.name + ": " + h.value;
    if h.value == "" {
      var line := h.name + ":";
      assert text == line + " ";
      TrimEndMore(line, ' ');
      assert TrimEnd(line) == line;
      FindFirst(line, ':', 0, |h.name|);
    } else {
      assert text[|text| - 1] == h.value[|h.value| - 1];
      assert TrimEnd(text) == text;
      FindFirst(text, ':', 0, |h.name|);
      assert SkipSpace(text, |h.name| + 1) == SkipSpace(text, |h.name| + 2) == |h.name| + 2;
    }
  }

  lemma RunHeader(c: Client, m: Machine, h: Header, tail: string)
    requires m.phase == Headers && Clean(h)
    ensures var (m', result) := HeaderLine(c, m, h.name, h.value);
      Run(c, m, HeaderText(h) + tail) == if result.Done? then Final(m', tail, result) else Run(c, m', tail)
  {
    var line := h.name + ": " + h.value;
    HeaderLineParts(h);
    assert TrimEnd(line) != "";
    RunLine(c, m, line, tail);
  }

  lemma {:induction false} RunHeaders(c: Client, m: Machine, hs: seq<Header>, tail: string)
    requires m.phase == Headers && Accepted(c, m, hs) && forall h | h in hs :: Clean(h) && Fits(h)
    ensures Run(c, m, HeaderTexts(hs) + tail) == Run(c, AfterHeaders(c, m, hs), tail)
    decreases |hs|
  {
    if hs == [] {
      assert "" + tail == tail;
    } else {
      assert hs[0] in hs;
      OneHeader(c, m, hs[0]);
      Seqs.Assoc(HeaderText(hs[0]), HeaderTexts(hs[1..]), tail);
      RunHeader(c, m, hs[0], HeaderTexts(hs[1..]) + tail);
      RunHeaders(c, HeaderLine(c, m, hs[0].name, hs[0].value).0, hs[1..], tail);
    }
  }

  predicate CleanLeader(leader: string) {
    NoneOf(leader, "\n") && TrimEnd(leader) == leader && |leader| + 2 * |CRLF| < BUFFER_SIZE
  }

  /** The parser once it has read the leader. */
  function AfterLeader(leader: string): Machine {
    Reset().(phase := Headers, leaders := [leader])
  }

  /** The parser once it has read everything before the document. */
  function AtBody(c: Client, leader: string, hs: seq<Header>): Machine {
    var chunked, size := SaysChunked(Arriving(hs)), DeclaredSize(c, Arriving(hs));
    Machine(if chunked then ChunkSize else Data, chunked, c.headerComplete(chunked, size).dataSize,
            [leader], Arriving(hs), "")
  }

  /** Leader and headers are such that a parser finds their ends. */
  predicate CleanHead(leader: string, hs: seq<Header>) {
    CleanLeader(leader) && forall h | h in hs :: Clean(h)
  }

  /** The receiving client accepts the leader, the headers and the end of the headers. */
  predicate Welcome(c: Client, leader: string, hs: seq<Header>) {
    && CleanHead(leader, hs) && c.parseLeader(leader) == HE_NONE && Legible(c, Arriving(hs))
    && c.headerComplete(SaysChunked(Arriving(hs)), DeclaredSize(c, Arriving(hs))).error == HE_NONE
  }

  lemma StartText(leader: string)
    requires CleanLeader(leader)
    ensures Start(leader) == leader + CRLF && Clip(CRLF, BUFFER_SIZE - |Start(leader)|) == CRLF
  {
  }

  lemma HeadText(leader: string, hs: seq<Header>)
    requires CleanLeader(leader)
    ensures Head(leader, hs, |hs|) == leader + CRLF + HeaderTexts(hs) + CRLF
  {
    assert hs[..|hs|] == hs;
    StartText(leader);
  }

  /** The head, line by line, and what follows it. */
  lemma HeadThen(leader: string, hs: seq<Header>, tail: string)
    requires CleanLeader(leader)
    ensures Head(leader, hs, |hs|) + tail == leader + CRLF + (HeaderTexts(hs) + ("" + CRLF + tail))
  {
    HeadText(leader, hs);
    assert "" + CRLF == CRLF;
    Seqs.Assoc(leader + CRLF + HeaderTexts(hs), CRLF, tail);
    Seqs.Assoc(leader + CRLF, HeaderTexts(hs), CRLF + tail);
  }

  lemma ArrivingHead(leader: string, hs: seq<Header>)
    requires CleanHead(leader, hs)
    ensures CleanHead(leader, Arriving(hs)) && forall h | h in Arriving(hs) :: Fits(h)
    ensures Head(leader, hs, |hs|) == Head(leader, Arriving(hs), |Arriving(hs)|)
  {
    ArrivingTexts(hs);
    HeadText(leader, hs);
    HeadText(leader, Arriving(hs));
  }

  /** A header that is not legible ends the message. */
  lemma {:induction false} RunBadHeaders(c: Client, m: Machine, hs: seq<Header>, tail: string)
    requires m.phase == Headers && !Accepted(c, m, hs) && forall h | h in hs :: Clean(h) && Fits(h)
    ensures Run(c, m, HeaderTexts(hs) + tail).result == Done(HE_PROTOCOL)
    decreases |hs|
  {
    assert hs[0] in hs;
    Seqs.Assoc(HeaderText(hs[0]), HeaderTexts(hs[1..]), tail);
    RunHeader(c, m, hs[0], HeaderTexts(hs[1..]) + tail);
    OneHeader(c, m, hs[0]);
    var (m', result) := HeaderLine(c, m, hs[0].name, hs[0].value);
    if result == Continue {
      RunBadHeaders(c, m', hs[1..], tail);
    }
  }

  /** What the parser makes of a leader and any clean headers: it stops at a leader that the client does not accept, at
      a header that is not legible, or when the client does not accept their end; and otherwise the headers that arrive
      are there, and it goes on with what the last Content-Length and Transfer-Encoding headers have said. */
  lemma HeadOutcome(c: Client, leader: string, hs: seq<Header>, tail: string)
    requires CleanHead(leader, hs)
    ensures var f, a := Run(c, Reset(), Head(leader, hs, |hs|) + tail), Arriving(hs);
      var end := c.headerComplete(SaysChunked(a), DeclaredSize(c, a));
      if c.parseLeader(leader) != HE_NONE then f.result == Done(c.parseLeader(leader))
      else if !Legible(c, a) then f.result == Done(HE_PROTOCOL)
      else if end.error != HE_NONE then f.result == Done(end.error)
      else f == Run(c, AtBody(c, leader, hs), tail)
  {
    var a, end := Arriving(hs), "" + CRLF + tail;
    ArrivingHead(leader, hs);
    HeadThen(leader, a, tail);
    assert [] + [leader] == [leader] && [] + a == a;
    RunLine(c, Reset(), leader, HeaderTexts(a) + end);
    if c.parseLeader(leader) == HE_NONE {
      HeadersMean(c, AfterLeader(leader), a);
      if Legible(c, a) {
        RunHeaders(c, AfterLeader(leader), a, end);
        RunLine(c, AfterHeaders(c, AfterLeader(leader), a), "", tail);
      } else {
        RunBadHeaders(c, AfterLeader(leader), a, end);
      }
    }
  }

  /** Leader and headers arrive as they were sent. */
  lemma RunHead(c: Client, leader: string, hs: seq<Header>, tail: string)
    requires Welcome(c, leader, hs)
    ensures Run(c, Reset(), Head(leader, hs, |hs|) + tail) == Run(c, AtBody(c, leader, hs), tail)
  {
    HeadOutcome(c, leader, hs, tail);
  }

  /** What a chunked sender has put on the wire when it is done, under every schedule of reads and writes, gives the
      receiver the leader, the headers and an end; and it gives exactly the document, and leaves what follows alone, if
      and only if no read of the document succeeded with nothing. */
  lemma ChunkedRoundTrip(c: Client, m: Message, s: State, tail: string)
    requires Inv(m, s) && AllSent(m, s) && m.chunked && m.hasDocument
    requires Welcome(c, m.leader, m.headers) && SaysChunked(Arriving(m.headers))
    ensures var f := Run(c, Reset(), s.wire + tail);
      && f.result == Done(HE_NONE) && f.machine.leaders == [m.leader] && f.machine.headers == Arriving(m.headers)
      && (f.rest == tail && f.machine.body == m.document <==> "" !in s.pieces)
  {
    var m', body := AtBody(c, m.leader, m.headers), Chunks(s.pieces) + LAST_CHUNK;
    CompletedWire(m, s);
    Seqs.Assoc(Head(m.leader, m.headers, s.header), body, tail);
    RunHead(c, m.leader, m.headers, body + tail);
    SendablePieces(s.pieces);
    ChunkedBody(c, m', s.pieces, tail);
  }

  /** Once everything has been sent, the wire holds the head and the body, and the document has been read. */
  lemma CompletedWire(m: Message, s: State)
    requires Inv(m, s) && AllSent(m, s)
    ensures s.wire == Head(m.leader, m.headers, |m.headers|) + Sent(m, s) && Concat(s.pieces) == m.document
  {
    assert s.wire + "" == s.wire && Concat(s.pieces) + "" == Concat(s.pieces);
  }

  lemma ChunkedBody(c: Client, m: Machine, pieces: seq<string>, tail: string)
    requires m.phase == ChunkSize && m.chunked && m.body == "" && Sendable(pieces)
    ensures var f := Run(c, m, Chunks(pieces) + LAST_CHUNK + tail);
      && f.result == Done(HE_NONE) && f.machine.leaders == m.leaders && f.machine.headers == m.headers
      && (f.rest == tail && f.machine.body == Concat(pieces) <==> "" !in pieces)
  {
    BodyRoundTrip(c, m, pieces, tail);
    BodyIsChunks(pieces, tail);
    DecodeBody(c, m, pieces, tail);
    assert "" + Concat(pieces) == Concat(pieces);
  }

  lemma SendablePieces(pieces: seq<string>)
    requires forall p | p in pieces :: |p| <= BUFFER_SIZE
    ensures Sendable(pieces)
  {
    assert Pow16(CHUNK_DIGITS) == 0x1_0000_0000;
  }

  /** Without chunking the document arrives when the receiver knows its length. */
  lemma PlainRoundTrip(c: Client, m: Message, s: State, tail: string)
    requires Inv(m, s) && AllSent(m, s) && !m.chunked
    requires Welcome(c, m.leader, m.headers)
    requires var a := Arriving(m.headers);
      !SaysChunked(a) && c.headerComplete(false, DeclaredSize(c, a)).dataSize == |m.document| != SIZE_UNKNOWN
    ensures var f := Run(c, Reset(), s.wire + tail);
      && f.result == Done(HE_NONE) && f.rest == tail
      && f.machine.leaders == [m.leader] && f.machine.headers == Arriving(m.headers) && f.machine.body == m.document
  {
    var m', d := AtBody(c, m.leader, m.headers), m.document;
    CompletedWire(m, s);
    Seqs.Assoc(Head(m.leader, m.headers, s.header), d, tail);
    RunHead(c, m.leader, m.headers, d + tail);
    assert (d + tail)[..|d|] == d && (d + tail)[|d|..] == tail && "" + d == d;
  }

  /** A sender takes "Chunked" for no chunks, and its receiver for chunks: the first line of the document is then no
      chunk size, and the message is an error. */
  lemma SpelledOtherwise(c: Client, leader: string, s: State, tail: string)
    requires Welcome(c, leader, [Header(TRANSFER_ENCODING, "Chunked")])
    requires var m := MessageOf(leader, [Header(TRANSFER_ENCODING, "Chunked")], true, "no\n");
      Inv(m, s) && AllSent(m, s)
    ensures Run(c, Reset(), s.wire + tail).result == Done(HE_PROTOCOL)
  {
    var h, d := Header(TRANSFER_ENCODING, "Chunked"), "no\n";
    var m := MessageOf(leader, [h], true, d);
    OnlyOne([], h, [], TRANSFER_ENCODING);
    assert [] + [h] + [] == [h] && "Chunked"[0] == 'C' && "chunked"[0] == 'c';
    CompletedWire(m, s);
    Seqs.Assoc(Head(leader, [h], 1), d, tail);
    RunHead(c, leader, [h], d + tail);
    NoChunkSize(c, AtBody(c, leader, [h]), tail);
  }

  lemma NoChunkSize(c: Client, m: Machine, tail: string)
    requires m.phase == ChunkSize
    ensures Run(c, m, "no\n" + tail).result == Done(HE_PROTOCOL)
  {
    var s := "no\n" + tail;
    assert s[0] == 'n' && s[1] == 'o' && s[2] == '\n' && s[..2] == "no";
    assert LineEnd(s, 2) == 2 && LineEnd(s, 1) == 2 && LineEnd(s) == 2;
    assert TrimEnd("no") == "no" && StrToUl16("no") == (0, 0);
    RunOneLine(c, m, s);
  }
}
