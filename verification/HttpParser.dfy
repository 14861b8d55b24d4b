/** The C library's view of characters and numbers, as far as the parser needs it. */
module CText {

  /** isspace in the C locale. */
  predicate IsSpace(c: char) {
    c == ' ' || ('\t' <= c <= '\r')
  }

  function Lower(c: char): char {
    if 'A' <= c <= 'Z' then c - 'A' + 'a' else c
  }

  /** Equal but for the case of ASCII letters, as _strnicmp over the whole of both. */
  predicate EqualNoCase(a: string, b: string) {
    |a| == |b| && forall i | 0 <= i < |a| :: Lower(a[i]) == Lower(b[i])
  }

  /** The line without the white space at its end. */
  function TrimEnd(s: string): (r: string) {
    if s != [] && IsSpace(s[|s| - 1]) then TrimEnd(s[..|s| - 1]) else s
  }

  /** The first index from `i` that holds no white space. */
  function SkipSpace(s: string, i: nat): (r: nat)
    requires i <= |s|
    ensures i <= r <= |s|
    decreases |s| - i
  {
    if i < |s| && IsSpace(s[i]) then SkipSpace(s, i + 1) else i
  }

  /** strchrn: the first `c` before any NUL, or the length. */
  function Find(s: string, c: char, i: nat := 0): (r: nat)
    requires i <= |s|
    ensures i <= r <= |s|
    decreases |s| - i
  {
    if i == |s| || s[i] == '\0' then |s| else if s[i] == c then i else Find(s, c, i + 1)
  }

  const SIZE_MAX: nat := 0xFFFF_FFFF_FFFF_FFFF

  type size_t = n: nat | n <= SIZE_MAX

  predicate IsHex(c: char) {
    '0' <= c <= '9' || 'a' <= c <= 'f' || 'A' <= c <= 'F'
  }

  function HexValue(c: char): (v: nat)
    requires IsHex(c)
    ensures v < 16
  {
    if c <= '9' then (c - '0') as nat else if c <= 'F' then (c - 'A') as nat + 10 else (c - 'a') as nat + 10
  }

  /** Goes on reading hexadecimal digits at `i`, with `v` read so far: the number, and where it ends. */
  function HexDigits(s: string, i: nat, v: nat): (r: (nat, nat))
    requires i <= |s|
    ensures i <= r.1 <= |s|
    decreases |s| - i
  {
    if i < |s| && IsHex(s[i]) then HexDigits(s, i + 1, v * 16 + HexValue(s[i])) else (v, i)
  }

  function SkipSign(s: string, i: nat): (j: nat)
    requires i <= |s|
    ensures i <= j <= |s|
  {
    if i < |s| && (s[i] == '+' || s[i] == '-') then i + 1 else i
  }

  /** A 0x counts only in front of a digit. */
  function SkipPrefix(s: string, j: nat): (k: nat)
    requires j <= |s|
    ensures j <= k <= |s|
  {
    if j + 2 < |s| && s[j] == '0' && (s[j + 1] == 'x' || s[j + 1] == 'X') && IsHex(s[j + 2]) then j + 2 else j
  }

  /** strtoul with base 16: the number, and the index where it stopped (0 when there was no number). */
  function StrToUl16(s: string): (r: (nat, nat))
    ensures r.0 <= SIZE_MAX && r.1 <= |s|
  {
    var i := SkipSpace(s, 0);
    var j := SkipSign(s, i);
    var k := SkipPrefix(s, j);
    var (v, end) := HexDigits(s, k, 0);
    if end == k then (0, 0)
    else if v > SIZE_MAX then (SIZE_MAX, end)
    else if j > i && s[i] == '-' then ((SIZE_MAX + 1 - v) % (SIZE_MAX + 1), end)
    else (v, end)
  }
}

/** HttpParser of httpbase.cc, with the callbacks that HttpBase gives it. */
module HttpParser {
  import opened CText
  import opened Seqs
  import opened Wrappers

  /** The size of the buffer that HttpBase receives into and sends from. */
  const BUFFER_SIZE: nat := 32 * 1024

  const SIZE_UNKNOWN: size_t := SIZE_MAX

  datatype HttpError = HE_NONE | HE_PROTOCOL | HE_DISCONNECTED | HE_OVERFLOW | HE_STREAM | HE_OTHER(code: int)

  datatype Phase = Leader | Headers | ChunkSize | ChunkTerm | Trailers | Data

  datatype Header = Header(name: string, value: string)

  /** The parser's three fields, and everything it has reported so far. */
  datatype Machine = Machine(
    phase: Phase, chunked: bool, dataSize: size_t,
    leaders: seq<string>, headers: seq<Header>, body: string)

  /** What onHttpHeaderComplete answers: an error, a new data size, and whether the I/O model changed. */
  datatype Verdict = Verdict(error: HttpError, dataSize: size_t, block: bool)

  /** The code the parser calls and that is not part of this model: parseLeader, sscanf's "%u", and
      onHttpHeaderComplete. */
  datatype Client = Client(
    parseLeader: string -> HttpError,
    scanUnsigned: string -> ScanResult,
    headerComplete: (bool, size_t) -> Verdict)

  datatype ScanResult = NoNumber | Number(value: size_t)

  datatype Result = Continue | Block | Done(error: HttpError)

  function Reset(): Machine {
    Machine(Leader, false, SIZE_UNKNOWN, [], [], "")
  }

  /** What a header does: two names mean something to the parser, and every header is passed on. */
  function HeaderLine(c: Client, m: Machine, name: string, value: string): (Machine, Result) {
    var m' := m.(headers := m.headers + [Header(name, value)]);
    if EqualNoCase(name, "Content-Length") then
      match c.scanUnsigned(value)
      case NoNumber => (m, Done(HE_PROTOCOL))
      case Number(n) => (m'.(dataSize := n), Continue)
    else if EqualNoCase(name, "Transfer-Encoding") then
      if EqualNoCase(value, "chunked") then (m'.(chunked := true), Continue)
      else if EqualNoCase(value, "identity") then (m'.(chunked := false), Continue)
      else (m, Done(HE_PROTOCOL))
    else (m', Continue)
  }

  /** ProcessLine, on a line without its end and the white space before it. */
  function Line(c: Client, m: Machine, line: string): (Machine, Result)
    requires m.phase != Data
  {
    match m.phase
    case Leader =>
      var error := c.parseLeader(line);
      (m.(phase := Headers, leaders := m.leaders + [line]), if error == HE_NONE then Continue else Done(error))
    case Headers =>
      if |line| > 0 then
        var nlen := Find(line, ':');
        if nlen == |line| then (m, Done(HE_PROTOCOL))
        else HeaderLine(c, m, line[..nlen], line[SkipSpace(line, nlen + 1)..])
      else
        var v := c.headerComplete(m.chunked, m.dataSize);
        (m.(phase := if m.chunked then ChunkSize else Data, dataSize := v.dataSize),
         if v.error != HE_NONE then Done(v.error) else if v.block then Block else Continue)
    case ChunkSize =>
      if |line| > 0 then
        var (n, end) := StrToUl16(line);
        if end != |line| then (m.(dataSize := n), Done(HE_PROTOCOL))
        else (m.(dataSize := n, phase := if n == 0 then Trailers else Data), Continue)
      else (m, Done(HE_PROTOCOL))
    case ChunkTerm =>
      if |line| > 0 then (m, Done(HE_PROTOCOL))
      else (m.(phase := if m.chunked then ChunkSize else Data), Continue)
    case Trailers =>
      (m, if |line| == 0 then Done(HE_NONE) else Continue)
  }

  /** The index of the first line end, or the length. */
  function LineEnd(s: string, i: nat := 0): (r: nat)
    requires i <= |s|
    ensures i <= r <= |s| && (r < |s| ==> s[r] == '\n')
    ensures forall k | i <= k < r :: s[k] != '\n'
    decreases |s| - i
  {
    if i == |s| || s[i] == '\n' then i else LineEnd(s, i + 1)
  }

  /** Consumes `n` bytes of document data. */
  function Take(m: Machine, s: string, n: nat): Machine
    requires n <= |s| && (m.dataSize == SIZE_UNKNOWN || n <= m.dataSize)
  {
    m.(body := m.body + s[..n], dataSize := if m.dataSize == SIZE_UNKNOWN then SIZE_UNKNOWN else m.dataSize - n)
  }

  /** How much of the input is document data. */
  function Available(m: Machine, s: string): nat {
    if m.dataSize != SIZE_UNKNOWN && |s| > m.dataSize then m.dataSize else |s|
  }

  /** Where the parser ends up: its state, the input it has not consumed, and whether and how the message ended. */
  datatype Final = Final(machine: Machine, rest: string, result: Result)

  /** All the parsing that an input allows, with nobody interrupting it: the reference for every way of calling
      Process. */
  function Run(c: Client, m: Machine, s: string): Final
    decreases |s|, m.phase == Data
  {
    if m.phase != Data then
      var end := LineEnd(s);
      if end == |s| then Final(m, s, Continue)
      else
        var (m', result) := Line(c, m, TrimEnd(s[..end]));
        if result.Done? then Final(m', s[end + 1..], result) else Run(c, m', s[end + 1..])
    else if m.dataSize == 0 then
      if m.chunked then Run(c, m.(phase := ChunkTerm), s) else Final(m, s, Done(HE_NONE))
    else if s == [] then Final(m, s, Continue)
    else Run(c, Take(m, s, Available(m, s)), s[Available(m, s)..])
  }

  lemma RunOneLine(c: Client, m: Machine, s: string)
    requires m.phase != Data
    ensures var end := LineEnd(s);
      if end == |s| then Run(c, m, s) == Final(m, s, Continue)
      else
        var (m', result) := Line(c, m, TrimEnd(s[..end]));
        Run(c, m, s) == if result.Done? then Final(m', s[end + 1..], result) else Run(c, m', s[end + 1..])
  {
  }

  // ----- The reference does not depend on how its input is cut -----

  /** The document data may be consumed in any number of pieces. */
  lemma {:induction false} RunTake(c: Client, m: Machine, s: string, n: nat)
    requires m.phase == Data && m.dataSize != 0 && 0 < n <= Available(m, s)
    ensures Run(c, m, s) == Run(c, Take(m, s, n), s[n..])
  {
    var all := Available(m, s);
    if n < all {
      var m', s' := Take(m, s, n), s[n..];
      assert Available(m', s') == all - n;
      assert s'[all - n..] == s[all..];
      assert m.body + s[..n] + s'[..all - n] == m.body + s[..all];
      assert Take(m', s', all - n) == Take(m, s, all);
    }
  }

  lemma LineEndAppend(a: string, b: string, i: nat)
    requires i <= |a| && LineEnd(a, i) < |a|
    ensures LineEnd(a + b, i) == LineEnd(a, i)
    decreases |a| - i
  {
  }

  lemma LineAppend(c: Client, m: Machine, a: string, b: string)
    requires m.phase != Data && LineEnd(a) < |a|
    ensures var end := LineEnd(a); var (m', result) := Line(c, m, TrimEnd(a[..end]));
      Run(c, m, a + b) == if result.Done? then Final(m', a[end + 1..] + b, result) else Run(c, m', a[end + 1..] + b)
  {
    LineEndAppend(a, b, 0);
    Seqs.Ends(a, b, LineEnd(a));
    Seqs.Ends(a, b, LineEnd(a) + 1);
    RunOneLine(c, m, a + b);
  }

  lemma DataAppend(c: Client, m: Machine, a: string, b: string)
    requires m.phase == Data && m.dataSize != 0 && a != []
    ensures var n := Available(m, a); Run(c, m, a + b) == Run(c, Take(m, a, n), a[n..] + b)
  {
    var n := Available(m, a);
    Seqs.Ends(a, b, n);
    RunTake(c, m, a + b, n);
  }

  /** What an input allows can be done first, and the rest when more input has come. */
  lemma {:induction false} RunAppend(c: Client, m: Machine, a: string, b: string)
    ensures var f := Run(c, m, a);
      Run(c, m, a + b) == if f.result.Done? then f.(rest := f.rest + b) else Run(c, f.machine, f.rest + b)
    decreases |a|, m.phase == Data
  {
    if m.phase != Data {
      var end := LineEnd(a);
      if end < |a| {
        LineAppend(c, m, a, b);
        var (m', result) := Line(c, m, TrimEnd(a[..end]));
        if !result.Done? {
          RunAppend(c, m', a[end + 1..], b);
        }
      }
    } else if m.dataSize == 0 {
      if m.chunked {
        RunAppend(c, m.(phase := ChunkTerm), a, b);
      }
    } else if a != [] {
      var n := Available(m, a);
      DataAppend(c, m, a, b);
      RunAppend(c, Take(m, a, n), a[n..], b);
    }
  }

  /** After a run that asks for more, nothing happens until more input comes. */
  lemma {:induction false} RunQuiescent(c: Client, m: Machine, s: string)
    requires Run(c, m, s).result.Continue?
    ensures var f := Run(c, m, s);
      Run(c, f.machine, f.rest) == f && if f.machine.phase == Data then f.rest == "" else LineEnd(f.rest) == |f.rest|
    decreases |s|, m.phase == Data
  {
    if m.phase != Data {
      var end := LineEnd(s);
      if end < |s| {
        RunQuiescent(c, Line(c, m, TrimEnd(s[..end])).0, s[end + 1..]);
      }
    } else if m.dataSize == 0 {
      RunQuiescent(c, m.(phase := ChunkTerm), s);
    } else if s != [] {
      RunQuiescent(c, Take(m, s, Available(m, s)), s[Available(m, s)..]);
    }
  }

  /** Presents the pieces one after the other, each behind what was left unconsumed before it. */
  function Feed(c: Client, f: Final, pieces: seq<string>): Final
    decreases |pieces|
  {
    if pieces == [] then f
    else if f.result.Done? then Feed(c, f.(rest := f.rest + pieces[0]), pieces[1..])
    else Feed(c, Run(c, f.machine, f.rest + pieces[0]), pieces[1..])
  }

  /** Cut independence: however an input is cut into calls, with the unconsumed tail presented again each time, the
      leader, the headers, the body, the state, the result and the unconsumed input are those of one call. */
  lemma {:induction false} CutIndependence(c: Client, m: Machine, first: string, pieces: seq<string>)
    ensures Feed(c, Run(c, m, first), pieces) == Run(c, m, first + Concat(pieces))
    decreases |pieces|
  {
    if pieces == [] {
      assert first + "" == first;
    } else {
      var f := Run(c, m, first);
      RunAppend(c, m, first, pieces[0]);
      assert first + pieces[0] + Concat(pieces[1..]) == first + Concat(pieces);
      CutIndependence(c, m, first + pieces[0], pieces[1..]);
    }
  }

  // ----- Parsing that the document, or the client, may interrupt -----

  /** Where a call of Process ends: the answers of the document that are left, and whether the document failed. */
  datatype Parsed = Parsed(machine: Machine, rest: string, result: Result, sinks: seq<Answer>, sinkFailed: bool)

  /** Process, given what the document will answer to each write.  A document that has no answer left blocks. */
  function Parse(c: Client, m: Machine, s: string, sinks: seq<Answer>): Parsed
    decreases |s| + |sinks|, m.phase == Data
  {
    if m.phase != Data then
      var end := LineEnd(s);
      if end == |s| then Parsed(m, s, Continue, sinks, false)
      else
        var (m', result) := Line(c, m, TrimEnd(s[..end]));
        if result != Continue then Parsed(m', s[end + 1..], result, sinks, false)
        else Parse(c, m', s[end + 1..], sinks)
    else if m.dataSize == 0 then
      if m.chunked then Parse(c, m.(phase := ChunkTerm), s, sinks) else Parsed(m, s, Done(HE_NONE), sinks, false)
    else if s == [] then Parsed(m, s, Continue, sinks, false)
    else if sinks == [] then Parsed(m, s, Block, sinks, false)
    else
      match sinks[0]
      case Moves(_) => var n := Taken(m, s, sinks[0]); Parse(c, Take(m, s, n), s[n..], sinks[1..])
      case Blocks => Parsed(m, s, Block, sinks[1..], false)
      case Fails => Parsed(m, s, Done(HE_STREAM), sinks[1..], true)
  }

  /** How much of the data it is offered the document takes. */
  function Taken(m: Machine, s: string, a: Answer): (n: nat)
    requires a.Moves?
    ensures n <= Available(m, s)
  {
    if a.n < Available(m, s) then a.n else Available(m, s)
  }

  /** What a parse leaves of the reference run. */
  ghost predicate Agrees(c: Client, f: Final, p: Parsed) {
    f == if p.result == Block || p.sinkFailed then Run(c, p.machine, p.rest) else Final(p.machine, p.rest, p.result)
  }

  lemma LineAgrees(c: Client, m: Machine, s: string, sinks: seq<Answer>)
    requires m.phase != Data
    requires var end := LineEnd(s); end < |s| && Line(c, m, TrimEnd(s[..end])).1 == Continue ==>
      var m' := Line(c, m, TrimEnd(s[..end])).0; Agrees(c, Run(c, m', s[end + 1..]), Parse(c, m', s[end + 1..], sinks))
    ensures Agrees(c, Run(c, m, s), Parse(c, m, s, sinks))
  {
    RunOneLine(c, m, s);
  }

  lemma RunTaken(c: Client, m: Machine, s: string, a: Answer)
    requires m.phase == Data && m.dataSize != 0 && s != [] && a.Moves?
    ensures var n := Taken(m, s, a); Run(c, m, s) == Run(c, Take(m, s, n), s[n..])
  {
    var n := Taken(m, s, a);
    if n == 0 {
      assert Take(m, s, 0) == m && s[0..] == s;
    } else {
      RunTake(c, m, s, n);
    }
  }

  /** Whatever the document does, the reference run over the input is the reference run over what is left; when the
      document did not interrupt, or the message ended, it has been completed. */
  lemma {:induction false} ParseAgrees(c: Client, m: Machine, s: string, sinks: seq<Answer>)
    ensures Agrees(c, Run(c, m, s), Parse(c, m, s, sinks))
    decreases |s| + |sinks|, m.phase == Data
  {
    if m.phase != Data {
      var end := LineEnd(s);
      if end < |s| && Line(c, m, TrimEnd(s[..end])).1 == Continue {
        ParseAgrees(c, Line(c, m, TrimEnd(s[..end])).0, s[end + 1..], sinks);
      }
      LineAgrees(c, m, s, sinks);
    } else if m.dataSize == 0 {
      if m.chunked {
        ParseAgrees(c, m.(phase := ChunkTerm), s, sinks);
      }
    } else if s != [] && sinks != [] && sinks[0].Moves? {
      var n := Taken(m, s, sinks[0]);
      RunTaken(c, m, s, sinks[0]);
      ParseAgrees(c, Take(m, s, n), s[n..], sinks[1..]);
    }
  }

  /** The document has just been offered data and did not take it. */
  predicate SinkBlocked(p: Parsed, sinks: seq<Answer>) {
    && p.machine.phase == Data && p.machine.dataSize != 0 && p.rest != ""
    && (p.sinks == [] || LastUsed(sinks, p.sinks) == Some(Blocks))
  }

  ghost predicate MayBlock(c: Client) {
    exists chunked, size :: c.headerComplete(chunked, size).block
  }

  /** What an interruption says about the answers that have been used. */
  ghost predicate Interrupted(c: Client, p: Parsed, sinks: seq<Answer>) {
    && Later(sinks, p.sinks)
    && (p.result == Block ==> SinkBlocked(p, sinks) || MayBlock(c))
    && (p.sinkFailed ==> p.result == Done(HE_STREAM) && LastUsed(sinks, p.sinks) == Some(Fails))
  }

  lemma InterruptedLater(c: Client, p: Parsed, sinks: seq<Answer>)
    requires sinks != [] && Interrupted(c, p, sinks[1..])
    ensures Interrupted(c, p, sinks)
  {
    LaterTransitive(sinks, sinks[1..], p.sinks);
  }

  lemma LineMayBlock(c: Client, m: Machine, line: string)
    requires m.phase != Data && Line(c, m, line).1 == Block
    ensures MayBlock(c)
  {
    assert c.headerComplete(m.chunked, m.dataSize).block;
  }

  ghost predicate Uses(c: Client, m: Machine, s: string, sinks: seq<Answer>) {
    var p := Parse(c, m, s, sinks);
    Interrupted(c, p, sinks) && |p.rest| <= |s|
  }

  lemma ParseOneLine(c: Client, m: Machine, s: string, sinks: seq<Answer>)
    requires m.phase != Data && LineEnd(s) < |s|
    ensures var end := LineEnd(s); var (m', result) := Line(c, m, TrimEnd(s[..end]));
      Parse(c, m, s, sinks) ==
        if result != Continue then Parsed(m', s[end + 1..], result, sinks, false)
        else Parse(c, m', s[end + 1..], sinks)
  {
  }

  /** No answer has been used. */
  lemma UnusedInterrupted(c: Client, p: Parsed)
    requires !p.sinkFailed && (p.result == Block ==> MayBlock(c))
    ensures Interrupted(c, p, p.sinks)
  {
    assert p.sinks[0..] == p.sinks;
  }

  lemma LineUses(c: Client, m: Machine, s: string, sinks: seq<Answer>)
    requires m.phase != Data
    requires var end := LineEnd(s); end < |s| && Line(c, m, TrimEnd(s[..end])).1 == Continue ==>
      Uses(c, Line(c, m, TrimEnd(s[..end])).0, s[end + 1..], sinks)
    ensures Uses(c, m, s, sinks)
  {
    var end := LineEnd(s);
    if end == |s| {
      UnusedInterrupted(c, Parsed(m, s, Continue, sinks, false));
    } else {
      var line := TrimEnd(s[..end]);
      var (m', result) := Line(c, m, line);
      ParseOneLine(c, m, s, sinks);
      if result == Block {
        LineMayBlock(c, m, line);
      }
      if result != Continue {
        UnusedInterrupted(c, Parsed(m', s[end + 1..], result, sinks, false));
      }
    }
  }

  lemma DataUses(c: Client, m: Machine, s: string, sinks: seq<Answer>)
    requires m.phase == Data && m.dataSize != 0 && s != [] && sinks != []
    requires sinks[0].Moves? ==>
      Uses(c, Take(m, s, Taken(m, s, sinks[0])), s[Taken(m, s, sinks[0])..], sinks[1..])
    ensures Uses(c, m, s, sinks)
  {
    if sinks[0].Moves? {
      var n := Taken(m, s, sinks[0]);
      InterruptedLater(c, Parse(c, Take(m, s, n), s[n..], sinks[1..]), sinks);
    }
  }

  /** Process is interrupted only by a document that blocks or fails, or by a client that asks for it. */
  lemma {:induction false} ParseInterrupted(c: Client, m: Machine, s: string, sinks: seq<Answer>)
    ensures Uses(c, m, s, sinks)
    decreases |s| + |sinks|, m.phase == Data
  {
    if m.phase != Data {
      var end := LineEnd(s);
      if end < |s| && Line(c, m, TrimEnd(s[..end])).1 == Continue {
        ParseInterrupted(c, Line(c, m, TrimEnd(s[..end])).0, s[end + 1..], sinks);
      }
      LineUses(c, m, s, sinks);
    } else if m.dataSize == 0 {
      if m.chunked {
        ParseInterrupted(c, m.(phase := ChunkTerm), s, sinks);
      }
    } else if s != [] && sinks != [] {
      if sinks[0].Moves? {
        var n := Taken(m, s, sinks[0]);
        ParseInterrupted(c, Take(m, s, n), s[n..], sinks[1..]);
      }
      DataUses(c, m, s, sinks);
    }
  }

  predicate Willing(answers: seq<Answer>) {
    forall a | a in answers :: a.Moves? && a.n > 0
  }

  lemma {:induction false} WillingUses(c: Client, m: Machine, s: string, sinks: seq<Answer>)
    requires Willing(sinks)
    ensures var p := Parse(c, m, s, sinks); |sinks| - |p.sinks| <= |s| - |p.rest| && Later(sinks, p.sinks)
    decreases |s| + |sinks|, m.phase == Data
  {
    ParseInterrupted(c, m, s, sinks);
    if m.phase != Data {
      var end := LineEnd(s);
      if end < |s| && Line(c, m, TrimEnd(s[..end])).1 == Continue {
        WillingUses(c, Line(c, m, TrimEnd(s[..end])).0, s[end + 1..], sinks);
      }
    } else if m.dataSize == 0 {
      if m.chunked {
        WillingUses(c, m.(phase := ChunkTerm), s, sinks);
      }
    } else if s != [] && sinks != [] {
      assert sinks[0] in sinks;
      var n := Taken(m, s, sinks[0]);
      WillingUses(c, Take(m, s, n), s[n..], sinks[1..]);
    }
  }

  /** A document that keeps taking data, and a client that never asks to wait, let Process run as far as the input
      allows. */
  lemma WillingParse(c: Client, m: Machine, s: string, sinks: seq<Answer>)
    requires Willing(sinks) && |sinks| >= |s| && !MayBlock(c)
    ensures var p := Parse(c, m, s, sinks);
      p.result != Block && !p.sinkFailed && Run(c, m, s) == Final(p.machine, p.rest, p.result)
  {
    var p := Parse(c, m, s, sinks);
    ParseInterrupted(c, m, s, sinks);
    WillingUses(c, m, s, sinks);
    ParseAgrees(c, m, s, sinks);
    assert LastUsed(sinks, p.sinks).Some? ==> LastUsed(sinks, p.sinks).value in sinks;
  }

  // ----- The parser itself -----

  class HttpParser {
    const client: Client
    var phase: Phase
    var chunked: bool
    var dataSize: size_t
    var leaders: seq<string>
    var headers: seq<Header>
    var body: string

    ghost function State(): Machine
      reads this
    {
      Machine(phase, chunked, dataSize, leaders, headers, body)
    }

    constructor (client: Client)
      ensures this.client == client && State() == Reset()
    {
      this.client := client;
      phase, chunked, dataSize, leaders, headers, body := Leader, false, SIZE_UNKNOWN, [], [], "";
    }

    method ProcessLine(line: string) returns (result: Result)
      requires phase != Data
      modifies this
      ensures (State(), result) == Line(client, old(State()), line)
    {
      match phase
      case Leader =>
        phase := Headers;
        leaders := leaders + [line];
        var error := client.parseLeader(line);
        result := if error == HE_NONE then Continue else Done(error);
      case Headers =>
        if |line| > 0 {
          var nlen := Find(line, ':');
          if nlen == |line| {
            return Done(HE_PROTOCOL);
          }
          var name, value := line[..nlen], line[SkipSpace(line, nlen + 1)..];
          if EqualNoCase(name, "Content-Length") {
            match client.scanUnsigned(value)
            case NoNumber => return Done(HE_PROTOCOL);
            case Number(n) => dataSize := n;
          } else if EqualNoCase(name, "Transfer-Encoding") {
            if EqualNoCase(value, "chunked") {
              chunked := true;
            } else if EqualNoCase(value, "identity") {
              chunked := false;
            } else {
              return Done(HE_PROTOCOL);
            }
          }
          headers := headers + [Header(name, value)];
          result := Continue;
        } else {
          phase := if chunked then ChunkSize else Data;
          var verdict := client.headerComplete(chunked, dataSize);
          dataSize := verdict.dataSize;
          result := if verdict.error != HE_NONE then Done(verdict.error) else if verdict.block then Block else Continue;
        }
      case ChunkSize =>
        if |line| > 0 {
          var (n, end) := StrToUl16(line);
          dataSize := n;
          if end != |line| {
            return Done(HE_PROTOCOL);
          }
          phase := if n == 0 then Trailers else Data;
          result := Continue;
        } else {
          result := Done(HE_PROTOCOL);
        }
      case ChunkTerm =>
        if |line| > 0 {
          return Done(HE_PROTOCOL);
        }
        phase := if chunked then ChunkSize else Data;
        result := Continue;
      case Trailers =>
        result := if |line| == 0 then Done(HE_NONE) else Continue;
    }

    /** Cuts the first line out of `buffer`, from `start`, without the white space at its end. */
    method FindLine(buffer: string, start: nat) returns (found: bool, line: string, next: nat)
      requires start <= |buffer|
      ensures var s := buffer[start..];
        && found == (LineEnd(s) < |s|)
        && (found ==>
              line == TrimEnd(s[..LineEnd(s)]) && start < next <= |buffer| && buffer[next..] == s[LineEnd(s) + 1..])
    {
      ghost var s := buffer[start..];
      var pos := start;
      while pos < |buffer| && buffer[pos] != '\n'
        invariant start <= pos <= |buffer|
        invariant LineEnd(s) == LineEnd(s, pos - start)
      {
        pos := pos + 1;
      }
      if pos >= |buffer| {
        return false, "", start;
      }
      line := buffer[start..pos];
      assert line == s[..pos - start] && line[..|line|] == line;
      var len := pos - start;
      while len > 0 && IsSpace(line[len - 1])
        invariant 0 <= len <= |line|
        invariant TrimEnd(line[..len]) == TrimEnd(s[..pos - start])
      {
        assert line[..len][..len - 1] == line[..len - 1];
        len := len - 1;
      }
      return true, line[..len], pos + 1;
    }

    /** Offers the document as much of `s` as belongs to it. */
    method ProcessData(s: string, a: Answer) returns (read: nat)
      requires phase == Data && dataSize != 0 && |s| > 0 && a.Moves?
      modifies this`body, this`dataSize
      ensures read == Taken(old(State()), s, a) && State() == Take(old(State()), s, read)
    {
      var available := |s|;
      if dataSize != SIZE_UNKNOWN && available > dataSize {
        available := dataSize;
      }
      read := if a.n < available then a.n else available;
      body := body + s[..read];
      if dataSize != SIZE_UNKNOWN {
        dataSize := dataSize - read;
      }
    }

    /** The next line of `buffer`, if there is one. */
    method ProcessNextLine(buffer: string, start: nat, ghost sinks: seq<Answer>)
      returns (over: bool, result: Result, next: nat)
      requires phase != Data && start <= |buffer|
      modifies this
      ensures start <= next <= |buffer| && (!over ==> start < next)
      ensures Parse(client, old(State()), buffer[start..], sinks) ==
        if over then Parsed(State(), buffer[next..], result, sinks, false)
        else Parse(client, State(), buffer[next..], sinks)
    {
      var found, line;
      found, line, next := FindLine(buffer, start);
      if !found {
        return true, Continue, start;
      }
      ParseOneLine(client, State(), buffer[start..], sinks);
      result := ProcessLine(line);
      over := result != Continue;
    }

    /** Offers the document what is left of `buffer`, and hears its answer. */
    method ProcessNextData(buffer: string, start: nat, sinks: seq<Answer>)
      returns (over: bool, result: Result, next: nat, sinkFailed: bool)
      requires phase == Data && dataSize != 0 && start < |buffer| && sinks != []
      modifies this
      ensures start <= next <= |buffer| && (!over ==> !sinkFailed)
      ensures Parse(client, old(State()), buffer[start..], sinks) ==
        if over then Parsed(State(), buffer[next..], result, sinks[1..], sinkFailed)
        else Parse(client, State(), buffer[next..], sinks[1..])
    {
      over, result, next, sinkFailed := true, Block, start, false;
      match sinks[0]
      case Moves(_) =>
        var read := ProcessData(buffer[start..], sinks[0]);
        assert buffer[start..][read..] == buffer[start + read..];
        over, next := false, start + read;
      case Blocks =>
      case Fails =>
        result, sinkFailed := Done(HE_STREAM), true;
    }

    /** Parses as much of `buffer` as it can, given what the document will answer. */
    method Process(buffer: string, sinks: seq<Answer>)
      returns (result: Result, processed: nat, sinks': seq<Answer>, sinkFailed: bool)
      modifies this
      ensures processed <= |buffer|
      ensures Parsed(State(), buffer[processed..], result, sinks', sinkFailed) ==
        Parse(client, old(State()), buffer, sinks)
    {
      result, processed, sinks', sinkFailed := Continue, 0, sinks, false;
      assert buffer[0..] == buffer;
      var over := false;
      while !over
        invariant processed <= |buffer| && (!over ==> !sinkFailed)
        invariant Parse(client, old(State()), buffer, sinks) ==
          if over then Parsed(State(), buffer[processed..], result, sinks', sinkFailed)
          else Parse(client, State(), buffer[processed..], sinks')
        decreases !over, |buffer| - processed + |sinks'|, phase == Data
      {
        if phase != Data {
          over, result, processed := ProcessNextLine(buffer, processed, sinks');
        } else if dataSize == 0 {
          if chunked {
            phase := ChunkTerm;
          } else {
            over, result := true, Done(HE_NONE);
          }
        } else if processed == |buffer| {
          over, result := true, Continue;
        } else if sinks' == [] {
          over, result := true, Block;
        } else {
          over, result, processed, sinkFailed := ProcessNextData(buffer, processed, sinks');
          sinks' := sinks'[1..];
        }
      }
    }
  }
}
