/** Exactly which bytes the parser takes for a chunked body, and which it refuses. */
module HttpGrammar {
  import opened CText
  import opened ChunkedCoding
  import opened HttpParser
  import opened LineText
  import opened Seqs

  /** A size line, that much data, and a blank line. */
  datatype Piece = Piece(size: string, data: string, gap: string)

  function PieceText(p: Piece): string {
    p.size + "\n" + (p.data + (p.gap + "\n"))
  }

  ghost predicate IsSized(p: Piece) {
    OneLine(p.size) && 0 < |p.data| < SIZE_MAX && Says(p.size, |p.data|) && OneLine(p.gap)
  }

  ghost predicate IsPiece(p: Piece) {
    IsSized(p) && Blank(p.gap)
  }

  /** Chunks, a size line that says 0, any lines that are not blank, and a blank one. */
  datatype Coded = Coded(pieces: seq<Piece>, last: string, trailers: seq<string>, end: string)

  function PiecesText(pieces: seq<Piece>): string {
    if pieces == [] then "" else PieceText(pieces[0]) + PiecesText(pieces[1..])
  }

  function PiecesData(pieces: seq<Piece>): string {
    if pieces == [] then "" else pieces[0].data + PiecesData(pieces[1..])
  }

  function LinesText(lines: seq<string>): string {
    if lines == [] then "" else lines[0] + "\n" + LinesText(lines[1..])
  }

  function CodedText(k: Coded): string {
    PiecesText(k.pieces) + (k.last + "\n" + (LinesText(k.trailers) + (k.end + "\n")))
  }

  predicate AreTrailers(lines: seq<string>) {
    forall i | 0 <= i < |lines| :: OneLine(lines[i]) && !Blank(lines[i])
  }

  ghost predicate ArePieces(pieces: seq<Piece>) {
    forall i | 0 <= i < |pieces| :: IsPiece(pieces[i])
  }

  ghost predicate IsCoded(k: Coded) {
    && ArePieces(k.pieces) && OneLine(k.last) && Says(k.last, 0) && AreTrailers(k.trailers)
    && OneLine(k.end) && Blank(k.end)
  }

  /** What is no chunked body: after whole chunks, a line that says no size, or a line with something on it where a
      blank one should end a chunk. */
  datatype Broken = NoSize(pieces: seq<Piece>, line: string) | NoGap(pieces: seq<Piece>, p: Piece)

  ghost predicate IsBroken(b: Broken) {
    && ArePieces(b.pieces)
    && match b
       case NoSize(_, line) => OneLine(line) && forall n: nat :: !Says(line, n)
       case NoGap(_, p) => IsSized(p) && !Blank(p.gap)
  }

  function BrokenText(b: Broken): string {
    PiecesText(b.pieces) + match b case NoSize(_, line) => line + "\n" case NoGap(_, p) => PieceText(p)
  }

  // ----- What the parser does with them -----

  lemma {:induction false} LineEndBefore(line: string, tail: string, i: nat)
    requires i <= |line| && OneLine(line)
    ensures LineEnd(line + "\n" + tail, i) == |line|
    decreases |line| - i
  {
    var s := line + "\n" + tail;
    if i < |line| {
      assert s[i] == line[i];
      LineEndBefore(line, tail, i + 1);
    }
  }

  lemma RunAnyLine(c: Client, m: Machine, line: string, tail: string)
    requires m.phase != Data && OneLine(line)
    ensures var (m', result) := Line(c, m, TrimEnd(line));
      Run(c, m, line + "\n" + tail) == if result.Done? then Final(m', tail, result) else Run(c, m', tail)
  {
    var s := line + "\n" + tail;
    LineEndBefore(line, tail, 0);
    assert s[..|line|] == line && s[|line| + 1..] == tail;
    RunOneLine(c, m, s);
  }

  lemma RunSize(c: Client, m: Machine, line: string, n: nat, tail: string)
    requires m.phase == ChunkSize && OneLine(line) && Says(line, n) && n <= SIZE_MAX
    ensures Run(c, m, line + "\n" + tail) == Run(c, m.(dataSize := n, phase := if n == 0 then Trailers else Data), tail)
  {
    SizeLine(line, n);
    RunAnyLine(c, m, line, tail);
  }

  lemma RunNoSize(c: Client, m: Machine, line: string, tail: string)
    requires m.phase == ChunkSize && OneLine(line) && forall n: nat :: !Says(line, n)
    ensures Run(c, m, line + "\n" + tail).result == Done(HE_PROTOCOL)
  {
    SizeLine(line, StrToUl16(TrimEnd(line)).0);
    RunAnyLine(c, m, line, tail);
  }

  lemma RunGap(c: Client, m: Machine, gap: string, tail: string)
    requires m.phase == ChunkTerm && m.chunked && OneLine(gap)
    ensures Blank(gap) ==> Run(c, m, gap + "\n" + tail) == Run(c, m.(phase := ChunkSize), tail)
    ensures !Blank(gap) ==> Run(c, m, gap + "\n" + tail).result == Done(HE_PROTOCOL)
  {
    BlankTrimmed(gap);
    RunAnyLine(c, m, gap, tail);
  }

  /** Up to the line behind the data of a chunk. */
  lemma RunSized(c: Client, m: Machine, size: string, d: string, rest: string)
    requires m.phase == ChunkSize && m.chunked && OneLine(size) && 0 < |d| < SIZE_MAX && Says(size, |d|)
    ensures Run(c, m, size + "\n" + (d + rest)) ==
            Run(c, m.(phase := ChunkTerm, dataSize := 0, body := m.body + d), rest)
  {
    RunSize(c, m, size, |d|, d + rest);
    RunData(c, m.(phase := Data, dataSize := |d|), d, rest);
  }

  lemma PieceThen(p: Piece, tail: string)
    ensures PieceText(p) + tail == p.size + "\n" + (p.data + (p.gap + "\n" + tail))
  {
    Seqs.Assoc(p.size + "\n", p.data + (p.gap + "\n"), tail);
    Seqs.Assoc(p.data, p.gap + "\n", tail);
  }

  lemma RunPiece(c: Client, m: Machine, p: Piece, tail: string)
    requires m.phase == ChunkSize && m.chunked && IsSized(p)
    ensures Blank(p.gap) ==>
      Run(c, m, PieceText(p) + tail) == Run(c, m.(dataSize := 0, body := m.body + p.data), tail)
    ensures !Blank(p.gap) ==> Run(c, m, PieceText(p) + tail).result == Done(HE_PROTOCOL)
  {
    PieceThen(p, tail);
    RunSized(c, m, p.size, p.data, p.gap + "\n" + tail);
    RunGap(c, m.(phase := ChunkTerm, dataSize := 0, body := m.body + p.data), p.gap, tail);
  }

  /** The machine behind whole chunks. */
  function AfterPieces(m: Machine, pieces: seq<Piece>): Machine
    decreases |pieces|
  {
    if pieces == [] then m else AfterPieces(m.(dataSize := 0, body := m.body + pieces[0].data), pieces[1..])
  }

  lemma {:induction false} AfterPiecesIs(m: Machine, pieces: seq<Piece>)
    ensures AfterPieces(m, pieces) ==
      m.(body := m.body + PiecesData(pieces), dataSize := if pieces == [] then m.dataSize else 0)
    decreases |pieces|
  {
    if pieces == [] {
      assert m.body + "" == m.body;
    } else {
      AfterPiecesIs(m.(dataSize := 0, body := m.body + pieces[0].data), pieces[1..]);
      Seqs.Assoc(m.body, pieces[0].data, PiecesData(pieces[1..]));
    }
  }

  lemma {:induction false} RunPieces(c: Client, m: Machine, pieces: seq<Piece>, tail: string)
    requires m.phase == ChunkSize && m.chunked && ArePieces(pieces)
    ensures Run(c, m, PiecesText(pieces) + tail) == Run(c, AfterPieces(m, pieces), tail)
    decreases |pieces|
  {
    if pieces == [] {
      assert "" + tail == tail;
    } else {
      Seqs.Assoc(PieceText(pieces[0]), PiecesText(pieces[1..]), tail);
      RunPiece(c, m, pieces[0], PiecesText(pieces[1..]) + tail);
      RunPieces(c, m.(dataSize := 0, body := m.body + pieces[0].data), pieces[1..], tail);
    }
  }

  lemma {:induction false} RunTrailers(c: Client, m: Machine, lines: seq<string>, end: string, tail: string)
    requires m.phase == Trailers && AreTrailers(lines) && OneLine(end) && Blank(end)
    ensures Run(c, m, LinesText(lines) + (end + "\n" + tail)) == Final(m, tail, Done(HE_NONE))
    decreases |lines|
  {
    if lines == [] {
      assert "" + (end + "\n" + tail) == end + "\n" + tail;
      BlankTrimmed(end);
      RunAnyLine(c, m, end, tail);
    } else {
      Seqs.Assoc(lines[0] + "\n", LinesText(lines[1..]), end + "\n" + tail);
      BlankTrimmed(lines[0]);
      RunAnyLine(c, m, lines[0], LinesText(lines[1..]) + (end + "\n" + tail));
      RunTrailers(c, m, lines[1..], end, tail);
    }
  }

  lemma CodedThen(k: Coded, tail: string)
    ensures CodedText(k) + tail ==
      PiecesText(k.pieces) + (k.last + "\n" + (LinesText(k.trailers) + (k.end + "\n" + tail)))
  {
    Seqs.Assoc(PiecesText(k.pieces), k.last + "\n" + (LinesText(k.trailers) + (k.end + "\n")), tail);
    Seqs.Assoc(k.last + "\n", LinesText(k.trailers) + (k.end + "\n"), tail);
    Seqs.Assoc(LinesText(k.trailers), k.end + "\n", tail);
  }

  /** A chunked body is read whole, and gives the data of its chunks. */
  lemma CodedIsRead(c: Client, m: Machine, k: Coded, tail: string)
    requires m.phase == ChunkSize && m.chunked && IsCoded(k)
    ensures Run(c, m, CodedText(k) + tail) == Ended(m, PiecesData(k.pieces), tail)
  {
    var m' := AfterPieces(m, k.pieces);
    AfterPiecesIs(m, k.pieces);
    CodedThen(k, tail);
    RunPieces(c, m, k.pieces, k.last + "\n" + (LinesText(k.trailers) + (k.end + "\n" + tail)));
    RunSize(c, m', k.last, 0, LinesText(k.trailers) + (k.end + "\n" + tail));
    RunTrailers(c, m'.(dataSize := 0, phase := Trailers), k.trailers, k.end, tail);
  }

  lemma BrokenIsRefused(c: Client, m: Machine, b: Broken, tail: string)
    requires m.phase == ChunkSize && m.chunked && IsBroken(b)
    ensures Run(c, m, BrokenText(b) + tail).result == Done(HE_PROTOCOL)
  {
    var bad := match b case NoSize(_, line) => line + "\n" case NoGap(_, p) => PieceText(p);
    AfterPiecesIs(m, b.pieces);
    Seqs.Assoc(PiecesText(b.pieces), bad, tail);
    RunPieces(c, m, b.pieces, bad + tail);
    match b
    case NoSize(_, line) => RunNoSize(c, AfterPieces(m, b.pieces), line, tail);
    case NoGap(_, p) => RunPiece(c, AfterPieces(m, b.pieces), p, tail);
  }

  // ----- What a sender sends -----

  lemma HexDigitIs(d: nat)
    requires d < 16
    ensures HexDigit(d) == if d < 10 then "0123456789"[d] else "abcdef"[d - 10]
  {
  }

  lemma {:induction false} HexMeans(n: nat, k: nat)
    requires n < Pow16(k)
    ensures AllHex(Hex(n, k)) && HexNumber(Hex(n, k)) == n
    ensures forall i | 0 <= i < k :: Hex(n, k)[i] in "0123456789" || Hex(n, k)[i] in "abcdef"
  {
    if k > 0 {
      var s := Hex(n, k);
      HexMeans(n / 16, k - 1);
      HexDigitIs(n % 16);
      assert s[..k - 1] == Hex(n / 16, k - 1) && s[k - 1] == HexDigit(n % 16);
    }
  }

  /** A chunk is its size in eight hexadecimal digits, in small letters, a line end, the data, and a line end. */
  lemma ChunkIs(d: string) returns (digits: string)
    requires |d| < 0x1_0000_0000
    ensures Chunk(d) == digits + "\r\n" + d + "\r\n" && |digits| == 8
    ensures AllHex(digits) && HexNumber(digits) == |d|
    ensures forall i | 0 <= i < 8 :: digits[i] in "0123456789" || digits[i] in "abcdef"
  {
    assert Pow16(8) == 0x1_0000_0000;
    digits := Hex(|d|, 8);
    HexMeans(|d|, 8);
  }

  // ----- Whatever ends the parse is one of them -----

  lemma AroundOne(s: string, i: nat)
    requires i < |s|
    ensures s == s[..i] + [s[i]] + s[i + 1..]
  {
  }

  lemma FirstLine(s: string)
    requires LineEnd(s) < |s|
    ensures OneLine(s[..LineEnd(s)]) && s == s[..LineEnd(s)] + "\n" + s[LineEnd(s) + 1..]
  {
    AroundOne(s, LineEnd(s));
  }

  /** How a body begins whose parse comes to an end. */
  datatype Found = BadSize(line: string) | LastSize(line: string, rest: string) | OnePiece(p: Piece, rest: string)

  ghost predicate IsFound(f: Found, s: string) {
    match f
    case BadSize(line) => OneLine(line) && (forall n: nat :: !Says(line, n)) && line + "\n" <= s
    case LastSize(line, rest) => OneLine(line) && Says(line, 0) && s == line + "\n" + rest
    case OnePiece(p, rest) => IsSized(p) && s == PieceText(p) + rest
  }

  lemma NoSuchSize(line: string)
    requires TrimEnd(line) == "" || StrToUl16(TrimEnd(line)).1 != |TrimEnd(line)|
    ensures forall n: nat :: !Says(line, n)
  {
    forall n: nat
      ensures !Says(line, n)
    {
      SizeLine(line, n);
    }
  }

  lemma UnknownGoesOn(c: Client, m: Machine, s: string)
    requires m.phase == Data && m.dataSize == SIZE_UNKNOWN
    ensures Run(c, m, s).result == Continue
  {
    if s != "" {
      assert s[|s|..] == "";
    }
  }

  lemma ShortGoesOn(c: Client, m: Machine, s: string)
    requires m.phase == Data && |s| < m.dataSize < SIZE_UNKNOWN
    ensures Run(c, m, s).result == Continue
  {
    if s != "" {
      assert s[|s|..] == "";
    }
  }

  lemma DataFound(c: Client, m: Machine, size: string, n: nat, s: string) returns (p: Piece, rest: string)
    requires m.phase == ChunkSize && m.chunked && OneLine(size) && Says(size, n) && 0 < n <= SIZE_MAX
    requires Run(c, m.(phase := Data, dataSize := n), s).result.Done?
    ensures IsSized(p) && size + "\n" + s == PieceText(p) + rest
  {
    var m' := m.(phase := Data, dataSize := n);
    if n == SIZE_MAX {
      UnknownGoesOn(c, m', s);
    } else if |s| < n {
      ShortGoesOn(c, m', s);
    }
    var d, behind := s[..n], s[n..];
    assert s == d + behind;
    RunData(c, m', d, behind);
    FirstLine(behind);
    p, rest := Piece(size, d, behind[..LineEnd(behind)]), behind[LineEnd(behind) + 1..];
    PieceThen(p, rest);
  }

  lemma StartFound(c: Client, m: Machine, s: string) returns (f: Found)
    requires m.phase == ChunkSize && m.chunked && Run(c, m, s).result.Done?
    ensures IsFound(f, s) && (f.BadSize? ==> Run(c, m, s).result == Done(HE_PROTOCOL))
  {
    FirstLine(s);
    var line, rest := s[..LineEnd(s)], s[LineEnd(s) + 1..];
    var (n, end) := StrToUl16(TrimEnd(line));
    if TrimEnd(line) == "" || end != |TrimEnd(line)| {
      NoSuchSize(line);
      RunNoSize(c, m, line, rest);
      f := BadSize(line);
    } else {
      SizeLine(line, n);
      if n == 0 {
        f := LastSize(line, rest);
      } else {
        RunSize(c, m, line, n, rest);
        var p, after := DataFound(c, m, line, n, rest);
        f := OnePiece(p, after);
      }
    }
  }

  lemma {:induction false} TrailersFound(c: Client, m: Machine, s: string) returns (lines: seq<string>, end: string)
    requires m.phase == Trailers && Run(c, m, s).result.Done?
    ensures AreTrailers(lines) && OneLine(end) && Blank(end) && LinesText(lines) + (end + "\n") <= s
    ensures Run(c, m, s).result == Done(HE_NONE)
    decreases |s|
  {
    FirstLine(s);
    var line, rest := s[..LineEnd(s)], s[LineEnd(s) + 1..];
    BlankTrimmed(line);
    RunAnyLine(c, m, line, rest);
    if Blank(line) {
      lines, end := [], line;
      assert "" + (end + "\n") == end + "\n";
    } else {
      lines, end := TrailersFound(c, m, rest);
      MoreLines(line, lines, end + "\n", rest);
      lines := [line] + lines;
    }
  }

  lemma MoreLines(line: string, lines: seq<string>, end: string, rest: string)
    requires AreTrailers(lines) && OneLine(line) && !Blank(line) && LinesText(lines) + end <= rest
    ensures AreTrailers([line] + lines) && LinesText([line] + lines) + end <= line + "\n" + rest
  {
    assert ([line] + lines)[1..] == lines;
    Seqs.Assoc(line + "\n", LinesText(lines), end);
  }

  lemma MorePieces(p: Piece, pieces: seq<Piece>)
    ensures PiecesText([p] + pieces) == PieceText(p) + PiecesText(pieces)
    ensures IsPiece(p) && ArePieces(pieces) ==> ArePieces([p] + pieces)
  {
    assert ([p] + pieces)[1..] == pieces;
  }

  lemma CodedMore(p: Piece, k: Coded, rest: string)
    requires IsPiece(p) && IsCoded(k) && CodedText(k) <= rest
    ensures IsCoded(k.(pieces := [p] + k.pieces)) && CodedText(k.(pieces := [p] + k.pieces)) <= PieceText(p) + rest
  {
    MorePieces(p, k.pieces);
    Seqs.Assoc(PieceText(p), PiecesText(k.pieces), k.last + "\n" + (LinesText(k.trailers) + (k.end + "\n")));
    assert CodedText(k.(pieces := [p] + k.pieces)) == PieceText(p) + CodedText(k);
  }

  lemma BrokenMore(p: Piece, b: Broken, rest: string)
    requires IsPiece(p) && IsBroken(b) && BrokenText(b) <= rest
    ensures IsBroken(b.(pieces := [p] + b.pieces)) && BrokenText(b.(pieces := [p] + b.pieces)) <= PieceText(p) + rest
  {
    MorePieces(p, b.pieces);
    Seqs.Assoc(PieceText(p), PiecesText(b.pieces),
               match b case NoSize(_, line) => line + "\n" case NoGap(_, q) => PieceText(q));
    assert BrokenText(b.(pieces := [p] + b.pieces)) == PieceText(p) + BrokenText(b);
  }

  lemma LastFound(c: Client, m: Machine, line: string, rest: string) returns (k: Coded)
    requires m.phase == ChunkSize && m.chunked && OneLine(line) && Says(line, 0)
    requires Run(c, m, line + "\n" + rest).result.Done?
    ensures Run(c, m, line + "\n" + rest).result == Done(HE_NONE)
    ensures IsCoded(k) && CodedText(k) <= line + "\n" + rest
  {
    RunSize(c, m, line, 0, rest);
    var lines, end := TrailersFound(c, m.(dataSize := 0, phase := Trailers), rest);
    k := Coded([], line, lines, end);
    assert CodedText(k) == line + "\n" + (LinesText(lines) + (end + "\n"));
  }

  lemma {:induction false} CodedFound(c: Client, m: Machine, s: string) returns (k: Coded)
    requires m.phase == ChunkSize && m.chunked && Run(c, m, s).result == Done(HE_NONE)
    ensures IsCoded(k) && CodedText(k) <= s
    decreases |s|
  {
    var f := StartFound(c, m, s);
    match f
    case BadSize(_) =>
      assert false;
    case LastSize(line, rest) =>
      k := LastFound(c, m, line, rest);
    case OnePiece(p, rest) =>
      RunPiece(c, m, p, rest);
      k := CodedFound(c, m.(dataSize := 0, body := m.body + p.data), rest);
      CodedMore(p, k, rest);
      k := k.(pieces := [p] + k.pieces);
  }

  lemma BadSizeFound(line: string, s: string)
    requires IsFound(BadSize(line), s)
    ensures IsBroken(NoSize([], line)) && BrokenText(NoSize([], line)) <= s
  {
    assert "" + (line + "\n") == line + "\n";
  }

  lemma BadGapFound(p: Piece, rest: string)
    requires IsSized(p) && !Blank(p.gap)
    ensures IsBroken(NoGap([], p)) && BrokenText(NoGap([], p)) <= PieceText(p) + rest
  {
    assert "" + PieceText(p) == PieceText(p);
  }

  lemma {:induction false} BrokenFound(c: Client, m: Machine, s: string) returns (b: Broken)
    requires m.phase == ChunkSize && m.chunked && Run(c, m, s).result.Done? && Run(c, m, s).result != Done(HE_NONE)
    ensures IsBroken(b) && BrokenText(b) <= s
    decreases |s|
  {
    var f := StartFound(c, m, s);
    match f
    case BadSize(line) =>
      b := NoSize([], line);
      BadSizeFound(line, s);
    case LastSize(line, rest) =>
      var _ := LastFound(c, m, line, rest);
      assert false;
    case OnePiece(p, rest) =>
      if Blank(p.gap) {
        RunPiece(c, m, p, rest);
        b := BrokenFound(c, m.(dataSize := 0, body := m.body + p.data), rest);
        BrokenMore(p, b, rest);
        b := b.(pieces := [p] + b.pieces);
      } else {
        b := NoGap([], p);
        BadGapFound(p, rest);
      }
  }

  lemma Behind(text: string, s: string)
    requires text <= s
    ensures s == text + s[|text|..]
  {
  }

  /** The parser takes for a whole chunked body exactly what starts with one, and refuses exactly what starts with a
      broken one; anything else makes it wait. */
  lemma ChunkedExactly(c: Client, m: Machine, s: string)
    requires m.phase == ChunkSize && m.chunked
    ensures Run(c, m, s).result == Done(HE_NONE) <==> exists k :: IsCoded(k) && CodedText(k) <= s
    ensures Run(c, m, s).result == Done(HE_PROTOCOL) <==> exists b :: IsBroken(b) && BrokenText(b) <= s
    ensures Run(c, m, s).result.Done? ==> Run(c, m, s).result in {Done(HE_NONE), Done(HE_PROTOCOL)}
  {
    forall k | IsCoded(k) && CodedText(k) <= s
      ensures Run(c, m, s).result == Done(HE_NONE)
    {
      CodedIsRead(c, m, k, s[|CodedText(k)|..]);
      Behind(CodedText(k), s);
    }
    forall b | IsBroken(b) && BrokenText(b) <= s
      ensures Run(c, m, s).result == Done(HE_PROTOCOL)
    {
      BrokenIsRefused(c, m, b, s[|BrokenText(b)|..]);
      Behind(BrokenText(b), s);
    }
    if Run(c, m, s).result == Done(HE_NONE) {
      var k := CodedFound(c, m, s);
    } else if Run(c, m, s).result.Done? {
      var b := BrokenFound(c, m, s);
    }
  }
}
