/** The lines of a message are never longer than the receiver's buffer. */
module HttpLines {
  import opened CText
  import opened HttpParser
  import opened ChunkedCoding
  import opened HttpHeaders
  import opened HttpRoundTrip
  import opened SenderState
  import opened Seqs

  /** Wherever the parser looks for the end of a line in `s`, there is less than a buffer of it. */
  ghost predicate Short(c: Client, m: Machine, s: string)
    decreases 2 * |s|, m.phase == Data
  {
    if m.phase != Data then
      var end := LineEnd(s);
      end < BUFFER_SIZE && (end < |s| ==> ShortAfter(c, m, TrimEnd(s[..end]), s[end + 1..]))
    else if m.dataSize == 0 then
      m.chunked ==> Short(c, m.(phase := ChunkTerm), s)
    else
      s == [] || Short(c, Take(m, s, Available(m, s)), s[Available(m, s)..])
  }

  ghost predicate ShortAfter(c: Client, m: Machine, line: string, rest: string)
    requires m.phase != Data
    decreases 2 * |rest| + 1
  {
    var (m', result) := Line(c, m, line);
    result.Done? || Short(c, m', rest)
  }

  lemma {:induction false} LineEndGrows(a: string, b: string, i: nat)
    requires i <= |a|
    ensures LineEnd(a, i) <= LineEnd(a + b, i)
    decreases |a| - i
  {
    if i < |a| && a[i] != '\n' {
      LineEndGrows(a, b, i + 1);
    }
  }

  /** So the part of a line that waits for its end fits the buffer. */
  lemma {:induction false} ShortRest(c: Client, m: Machine, a: string, b: string)
    requires Short(c, m, a + b)
    ensures var f := Run(c, m, a); f.result.Continue? && f.machine.phase != Data ==> |f.rest| < BUFFER_SIZE
    decreases |a|, m.phase == Data
  {
    if m.phase != Data {
      var end := LineEnd(a);
      if end == |a| {
        LineEndGrows(a, b, 0);
      } else {
        LineEndAppend(a, b, 0);
        Seqs.Ends(a, b, end);
        Seqs.Ends(a, b, end + 1);
        var (m', result) := Line(c, m, TrimEnd(a[..end]));
        if !result.Done? {
          ShortRest(c, m', a[end + 1..], b);
        }
      }
    } else if m.dataSize == 0 {
      if m.chunked {
        ShortRest(c, m.(phase := ChunkTerm), a, b);
      }
    } else if a != [] {
      var n := Available(m, a);
      if Take(m, a, n).dataSize == 0 {
        Seqs.Ends(a, b, n);
        ShortRest(c, Take(m, a, n), a[n..], b);
      } else {
        assert a[n..] == "";
      }
    }
  }

  // ----- What a sender puts on the wire -----

  lemma ShortLine(c: Client, m: Machine, line: string, tail: string)
    requires m.phase != Data && (forall k | 0 <= k < |line| :: line[k] != '\n') && |line| + 1 < BUFFER_SIZE
    requires ShortAfter(c, m, TrimEnd(line), tail)
    ensures Short(c, m, line + CRLF + tail)
  {
    var s := line + CRLF + tail;
    LineEndOf(line, tail, 0);
    assert s[..|line| + 1] == line + "\r" && s[|line| + 2..] == tail;
    TrimEndMore(line, '\r');
  }

  lemma ShortHeader(c: Client, m: Machine, h: Header, tail: string)
    requires m.phase == Headers && Clean(h) && Fits(h)
    requires var (m', result) := HeaderLine(c, m, h.name, h.value); result.Done? || Short(c, m', tail)
    ensures Short(c, m, HeaderText(h) + tail)
  {
    var line := h.name + ": " + h.value;
    HeaderLineParts(h);
    assert TrimEnd(line) != "";
    ShortLine(c, m, line, tail);
  }

  lemma {:induction false} ShortHeaders(c: Client, m: Machine, hs: seq<Header>, tail: string)
    requires m.phase == Headers && Accepted(c, m, hs) && forall h | h in hs :: Clean(h) && Fits(h)
    requires Short(c, AfterHeaders(c, m, hs), tail)
    ensures Short(c, m, HeaderTexts(hs) + tail)
    decreases |hs|
  {
    if hs == [] {
      assert "" + tail == tail;
    } else {
      assert hs[0] in hs;
      OneHeader(c, m, hs[0]);
      Seqs.Assoc(HeaderText(hs[0]), HeaderTexts(hs[1..]), tail);
      ShortHeaders(c, HeaderLine(c, m, hs[0].name, hs[0].value).0, hs[1..], tail);
      ShortHeader(c, m, hs[0], HeaderTexts(hs[1..]) + tail);
    }
  }

  lemma ShortHead(c: Client, leader: string, hs: seq<Header>, tail: string)
    requires Welcome(c, leader, hs) && Short(c, AtBody(c, leader, hs), tail)
    ensures Short(c, Reset(), Head(leader, hs, |hs|) + tail)
  {
    var a, end := Arriving(hs), "" + CRLF + tail;
    ArrivingHead(leader, hs);
    HeadThen(leader, a, tail);
    assert [] + [leader] == [leader] && [] + a == a;
    HeadersMean(c, AfterLeader(leader), a);
    ShortLine(c, AfterHeaders(c, AfterLeader(leader), a), "", tail);
    ShortHeaders(c, AfterLeader(leader), a, end);
    ShortLine(c, Reset(), leader, HeaderTexts(a) + end);
  }

  lemma ShortChunk(c: Client, m: Machine, d: string, tail: string)
    requires m.phase == ChunkSize && m.chunked && 0 < |d| < Pow16(CHUNK_DIGITS)
    requires Short(c, m.(dataSize := 0, body := m.body + d), tail)
    ensures Short(c, m, Chunk(d) + tail)
  {
    var m1 := m.(phase := Data, dataSize := |d|);
    var m2 := m1.(dataSize := 0, body := m.body + d);
    var rest := CRLF + tail;
    assert rest == "" + CRLF + tail;
    ShortLine(c, m2.(phase := ChunkTerm), "", tail);
    assert Pow16(8) == 0x1_0000_0000;
    assert Available(m1, d + rest) == |d|;
    assert (d + rest)[..|d|] == d && (d + rest)[|d|..] == rest;
    assert Take(m1, d + rest, |d|) == m2;
    assert Short(c, m1, d + rest);
    ChunkParts(d, tail);
    StrToUlOfHex(|d|);
    ShortLine(c, m, Hex(|d|, CHUNK_DIGITS), d + rest);
  }

  lemma ShortLastChunk(c: Client, m: Machine)
    requires m.phase == ChunkSize && m.chunked
    ensures Short(c, m, LAST_CHUNK)
  {
    var m' := m.(phase := Trailers, dataSize := 0);
    assert LAST_CHUNK == "0" + CRLF + ("" + CRLF + "");
    assert StrToUl16("0") == (0, 1);
    ShortLine(c, m', "", "");
    ShortLine(c, m, "0", "" + CRLF + "");
  }

  lemma {:induction false} ShortChunks(c: Client, m: Machine, pieces: seq<string>)
    requires m.phase == ChunkSize && m.chunked && Sendable(pieces) && "" !in pieces
    ensures Short(c, m, Chunks(pieces) + LAST_CHUNK)
    decreases |pieces|
  {
    if pieces == [] {
      assert "" + LAST_CHUNK == LAST_CHUNK;
      ShortLastChunk(c, m);
    } else {
      var d := pieces[0];
      ShortChunks(c, m.(dataSize := 0, body := m.body + d), pieces[1..]);
      ShortChunk(c, m, d, Chunks(pieces[1..]) + LAST_CHUNK);
      Seqs.Assoc(Chunk(d), Chunks(pieces[1..]), LAST_CHUNK);
    }
  }

  lemma ShortData(c: Client, m: Machine, d: string)
    requires m.phase == Data && !m.chunked && m.dataSize == |d| != SIZE_UNKNOWN
    ensures Short(c, m, d)
  {
  }
}
