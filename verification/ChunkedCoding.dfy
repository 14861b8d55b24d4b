/** The chunked coding of section 3.6.1 of RFC 2616, as HttpBase sends it and HttpParser reads it. */
module ChunkedCoding {
  import opened CText
  import opened HttpParser
  import opened Seqs

  function HexDigit(d: nat): (c: char)
    requires d < 16
    ensures IsHex(c) && HexValue(c) == d && c != 'x' && c != 'X'
  {
    if d < 10 then '0' + d as char else 'a' + (d - 10) as char
  }

  /** The last `k` hexadecimal digits of `n`, in lower case. */
  function Hex(n: nat, k: nat): (s: string)
    ensures |s| == k && forall i | 0 <= i < k :: IsHex(s[i]) && s[i] != 'x' && s[i] != 'X'
  {
    if k == 0 then "" else Hex(n / 16, k - 1) + [HexDigit(n % 16)]
  }

  function Pow16(k: nat): nat {
    if k == 0 then 1 else 16 * Pow16(k - 1)
  }

  const CHUNK_DIGITS: nat := 8
  const CRLF: string := "\r\n"

  function Chunk(d: string): string {
    Hex(|d|, CHUNK_DIGITS) + CRLF + d + CRLF
  }

  const LAST_CHUNK: string := "0\r\n\r\n"

  function Chunks(pieces: seq<string>): string {
    if pieces == [] then "" else Chunk(pieces[0]) + Chunks(pieces[1..])
  }

  /** The parser reads back every number that fits the digits it was printed with. */
  lemma {:induction false} HexDigitsOfHex(s: string, n: nat, k: nat)
    requires k <= |s| && s[..k] == Hex(n, k) && n < Pow16(k)
    ensures HexDigits(s, 0, 0) == HexDigits(s, k, n)
  {
    if k > 0 {
      assert s[..k - 1] == Hex(n, k)[..k - 1] == Hex(n / 16, k - 1);
      HexDigitsOfHex(s, n / 16, k - 1);
      assert s[k - 1] == Hex(n, k)[k - 1] == HexDigit(n % 16);
    }
  }

  lemma StrToUlOfHex(n: nat)
    requires n < Pow16(CHUNK_DIGITS)
    ensures StrToUl16(Hex(n, CHUNK_DIGITS)) == (n, CHUNK_DIGITS)
  {
    var s := Hex(n, CHUNK_DIGITS);
    assert s[..CHUNK_DIGITS] == s;
    HexDigitsOfHex(s, n, CHUNK_DIGITS);
    assert !IsSpace(s[0]) && s[0] != '-' && s[0] != '+' && s[1] != 'x' && s[1] != 'X';
    assert Pow16(8) == 0x1_0000_0000;
  }

  /** A line that ends in "\r\n" and holds no line end itself. */
  lemma {:induction false} LineEndOf(line: string, tail: string, i: nat)
    requires i <= |line| && forall k | i <= k < |line| :: line[k] != '\n'
    ensures LineEnd(line + CRLF + tail, i) == |line| + 1
    decreases |line| - i
  {
    var s := line + CRLF + tail;
    if i < |line| {
      LineEndOf(line, tail, i + 1);
    } else {
      assert s[i] == '\r' && s[i + 1] == '\n';
      assert LineEnd(s, i) == LineEnd(s, i + 1) == i + 1;
    }
  }

  lemma {:induction false} TrimEndMore(s: string, space: char)
    requires IsSpace(space)
    ensures TrimEnd(s + [space]) == TrimEnd(s)
  {
    assert (s + [space])[..|s|] == s;
  }

  /** What the parser makes of one line that ends in "\r\n". */
  lemma RunLine(c: Client, m: Machine, line: string, tail: string)
    requires m.phase != Data && forall k | 0 <= k < |line| :: line[k] != '\n'
    ensures var (m', result) := Line(c, m, TrimEnd(line));
      Run(c, m, line + CRLF + tail) == if result.Done? then Final(m', tail, result) else Run(c, m', tail)
  {
    var s := line + CRLF + tail;
    LineEndOf(line, tail, 0);
    assert s[..|line| + 1] == line + "\r" && s[|line| + 2..] == tail;
    TrimEndMore(line, '\r');
  }

  /** The data of a chunk, and the step to what ends it. */
  lemma RunData(c: Client, m: Machine, d: string, rest: string)
    requires m.phase == Data && m.chunked && 0 < |d| == m.dataSize < SIZE_UNKNOWN
    ensures Run(c, m, d + rest) == Run(c, m.(phase := ChunkTerm, dataSize := 0, body := m.body + d), rest)
  {
    var m2 := m.(dataSize := 0, body := m.body + d);
    assert Available(m, d + rest) == |d|;
    assert (d + rest)[..|d|] == d && (d + rest)[|d|..] == rest;
    assert Run(c, m, d + rest) == Run(c, m2, rest);
  }

  lemma RunChunkSize(c: Client, m: Machine, n: nat, rest: string)
    requires m.phase == ChunkSize && m.chunked && 0 < n < Pow16(CHUNK_DIGITS)
    ensures n < SIZE_UNKNOWN
    ensures Run(c, m, Hex(n, CHUNK_DIGITS) + CRLF + rest) == Run(c, m.(phase := Data, dataSize := n), rest)
  {
    assert Pow16(8) == 0x1_0000_0000;
    StrToUlOfHex(n);
    RunLine(c, m, Hex(n, CHUNK_DIGITS), rest);
  }

  lemma RunChunkEnd(c: Client, m: Machine, tail: string)
    requires m.phase == ChunkTerm && m.chunked
    ensures Run(c, m, CRLF + tail) == Run(c, m.(phase := ChunkSize), tail)
  {
    assert CRLF + tail == "" + CRLF + tail;
    RunLine(c, m, "", tail);
  }

  lemma ChunkParts(d: string, tail: string)
    requires |d| < Pow16(CHUNK_DIGITS)
    ensures Chunk(d) + tail == Hex(|d|, CHUNK_DIGITS) + CRLF + (d + (CRLF + tail))
  {
    var size := Hex(|d|, CHUNK_DIGITS) + CRLF;
    Seqs.Assoc(size, d, CRLF);
    Seqs.Assoc(size, d + CRLF, tail);
    Seqs.Assoc(d, CRLF, tail);
  }

  /** The parser takes a chunk apart into exactly its data, whatever the data and whatever follows. */
  lemma DecodeChunk(c: Client, m: Machine, d: string, tail: string)
    requires m.phase == ChunkSize && m.chunked && 0 < |d| < Pow16(CHUNK_DIGITS)
    ensures Run(c, m, Chunk(d) + tail) == Run(c, m.(dataSize := 0, body := m.body + d), tail)
  {
    ChunkParts(d, tail);
    RunChunkSize(c, m, |d|, d + (CRLF + tail));
    RunData(c, m.(phase := Data, dataSize := |d|), d, CRLF + tail);
    RunChunkEnd(c, m.(phase := ChunkTerm, dataSize := 0, body := m.body + d), tail);
  }

  /** The message has ended, with `more` added to its body. */
  function Ended(m: Machine, more: string, rest: string): Final {
    Final(m.(phase := Trailers, dataSize := 0, body := m.body + more), rest, Done(HE_NONE))
  }

  lemma DecodeLastChunk(c: Client, m: Machine, tail: string)
    requires m.phase == ChunkSize && m.chunked
    ensures Run(c, m, LAST_CHUNK + tail) == Ended(m, "", tail)
  {
    assert m.body + "" == m.body;
    assert LAST_CHUNK + tail == "0" + CRLF + ("" + CRLF + tail);
    assert StrToUl16("0") == (0, 1);
    RunLine(c, m, "0", "" + CRLF + tail);
    RunLine(c, m.(phase := Trailers, dataSize := 0), "", tail);
  }

  /** A zero-length read is sent as a chunk that ends the message. */
  lemma DecodeEmptyChunk(c: Client, m: Machine, tail: string)
    requires m.phase == ChunkSize && m.chunked
    ensures Run(c, m, Chunk("") + tail) == Ended(m, "", tail)
  {
    assert m.body + "" == m.body;
    var size := Hex(0, CHUNK_DIGITS);
    assert Chunk("") + tail == size + CRLF + ("" + CRLF + tail);
    assert Pow16(8) == 0x1_0000_0000;
    StrToUlOfHex(0);
    RunLine(c, m, size, "" + CRLF + tail);
    RunLine(c, m.(phase := Trailers, dataSize := 0), "", tail);
  }

  predicate Sendable(pieces: seq<string>) {
    forall p | p in pieces :: |p| < Pow16(CHUNK_DIGITS)
  }

  /** The body on the wire, and what follows it. */
  function Body(pieces: seq<string>, tail: string): string {
    if pieces == [] then LAST_CHUNK + tail else Chunk(pieces[0]) + Body(pieces[1..], tail)
  }

  lemma {:induction false} BodyIsChunks(pieces: seq<string>, tail: string)
    ensures Chunks(pieces) + LAST_CHUNK + tail == Body(pieces, tail)
  {
    if pieces != [] {
      BodyIsChunks(pieces[1..], tail);
    }
  }

  /** The document up to the first empty piece. */
  function Document(pieces: seq<string>): string {
    if pieces == [] || pieces[0] == "" then "" else pieces[0] + Document(pieces[1..])
  }

  /** What the parser leaves: what follows the message, or, after an empty piece, all the later chunks too. */
  function Rest(pieces: seq<string>, tail: string): string {
    if pieces == [] then tail
    else if pieces[0] == "" then Body(pieces[1..], tail)
    else Rest(pieces[1..], tail)
  }

  lemma EndedLater(m: Machine, p: string, more: string, rest: string)
    ensures Ended(m.(dataSize := 0, body := m.body + p), more, rest) == Ended(m, p + more, rest)
  {
    assert m.body + p + more == m.body + (p + more);
  }

  /** Exactly what the parser gets back from a chunked body: the pieces up to the first empty one, at which it takes
      the message to be complete. */
  lemma {:induction false} DecodeBody(c: Client, m: Machine, pieces: seq<string>, tail: string)
    requires m.phase == ChunkSize && m.chunked && Sendable(pieces)
    ensures Run(c, m, Body(pieces, tail)) == Ended(m, Document(pieces), Rest(pieces, tail))
    decreases |pieces|
  {
    if pieces == [] {
      DecodeLastChunk(c, m, tail);
    } else {
      var p, after := pieces[0], Body(pieces[1..], tail);
      if p == "" {
        DecodeEmptyChunk(c, m, after);
      } else {
        DecodeChunk(c, m, p, after);
        DecodeBody(c, m.(dataSize := 0, body := m.body + p), pieces[1..], tail);
        EndedLater(m, p, Document(pieces[1..]), Rest(pieces[1..], tail));
      }
    }
  }

  lemma {:induction false} RestSize(pieces: seq<string>, tail: string)
    ensures "" !in pieces ==> Rest(pieces, tail) == tail && Document(pieces) == Concat(pieces)
    ensures "" in pieces ==> |Rest(pieces, tail)| > |tail|
  {
    if pieces != [] {
      assert pieces == [pieces[0]] + pieces[1..];
      RestSize(pieces[1..], tail);
      BodyIsChunks(pieces[1..], tail);
    }
  }

  /** The chunked coding gives the document back, and leaves what follows the message alone, if and only if no read of
      the document succeeded with nothing. */
  lemma BodyRoundTrip(c: Client, m: Machine, pieces: seq<string>, tail: string)
    requires m.phase == ChunkSize && m.chunked && Sendable(pieces)
    ensures var f := Run(c, m, Chunks(pieces) + LAST_CHUNK + tail);
      && f.result == Done(HE_NONE)
      && (f.rest == tail && f.machine.body == m.body + Concat(pieces) <==> "" !in pieces)
  {
    BodyIsChunks(pieces, tail);
    DecodeBody(c, m, pieces, tail);
    RestSize(pieces, tail);
  }
}
