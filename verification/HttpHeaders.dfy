/** What the headers of a message mean to the parser, told from the list of headers alone. */
module HttpHeaders {
  import opened CText
  import opened DecimalText
  import opened HttpParser
  import opened SenderState
  import opened Seqs
  import opened Wrappers

  // ----- Characters and names -----

  /** White space is space, tab, line feed, vertical tab, form feed and carriage return. */
  lemma WhiteIs(ch: char)
    ensures IsSpace(ch) <==> ch in " \t\n\U{0B}\U{0C}\r"
  {
    var s := " \t\n\U{0B}\U{0C}\r";
    assert s[0] == ' ' && s[1] == '\t' && s[2] == '\n' && s[3] == '\U{0B}' && s[4] == '\U{0C}' && s[5] == '\r';
  }

  const CAPITALS: seq<string> := ["ABCDEFG", "HIJKLMN", "OPQRSTU", "VWXYZ"]
  const SMALL: seq<string> := ["abcdefg", "hijklmn", "opqrstu", "vwxyz"]

  predicate At(rows: seq<string>, r: nat, i: nat, ch: char) {
    r < |rows| && i < |rows[r]| && rows[r][i] == ch
  }

  /** A capital letter becomes the small one in the same place, and any other character stays. */
  lemma LowerIs(ch: char)
    ensures forall r: nat, i: nat | At(CAPITALS, r, i, ch) :: At(SMALL, r, i, Lower(ch))
    ensures (forall r: nat, i: nat :: !At(CAPITALS, r, i, ch)) ==> Lower(ch) == ch
  {
    if 'A' <= ch <= 'Z' {
      var n := ch as nat - 'A' as nat;
      assert At(CAPITALS, n / 7, n % 7, ch);
    }
  }

  const CONTENT_LENGTH := "Content-Length"
  const TRANSFER_ENCODING := "Transfer-Encoding"

  predicate Named(h: Header, name: string) {
    EqualNoCase(h.name, name)
  }

  // ----- The last header of a name -----

  /** Header `i` is the last one of that name. */
  predicate IsLast(hs: seq<Header>, i: nat, name: string) {
    i < |hs| && Named(hs[i], name) && forall j | i < j < |hs| :: !Named(hs[j], name)
  }

  predicate NoneNamed(hs: seq<Header>, name: string) {
    forall i | 0 <= i < |hs| :: !Named(hs[i], name)
  }

  function LastValue(hs: seq<Header>, name: string): Option<string> {
    if hs == [] then None
    else
      match LastValue(hs[1..], name)
      case Some(v) => Some(v)
      case None => if Named(hs[0], name) then Some(hs[0].value) else None
  }

  lemma {:induction false} LastValueIs(hs: seq<Header>, name: string)
    ensures LastValue(hs, name) == None <==> NoneNamed(hs, name)
    ensures forall i | 0 <= i < |hs| && IsLast(hs, i, name) :: LastValue(hs, name) == Some(hs[i].value)
  {
    if hs != [] {
      LastValueIs(hs[1..], name);
      forall i | 0 <= i < |hs| && IsLast(hs, i, name)
        ensures LastValue(hs, name) == Some(hs[i].value)
      {
        if i > 0 {
          assert IsLast(hs[1..], i - 1, name);
        } else {
          assert forall j | 0 <= j < |hs[1..]| :: hs[1..][j] == hs[j + 1];
        }
      }
      if NoneNamed(hs[1..], name) && !Named(hs[0], name) {
        assert forall i | 0 < i < |hs| :: hs[i] == hs[1..][i - 1];
      }
    }
  }

  // ----- What the parser makes of a list of headers -----

  /** What HTTP allows these two headers to say, as far as this parser knows it. */
  predicate IsLegible(c: Client, h: Header) {
    && (Named(h, CONTENT_LENGTH) ==> c.scanUnsigned(h.value).Number?)
    && (Named(h, TRANSFER_ENCODING) ==> EqualNoCase(h.value, "chunked") || EqualNoCase(h.value, "identity"))
  }

  predicate Legible(c: Client, hs: seq<Header>) {
    forall i | 0 <= i < |hs| :: IsLegible(c, hs[i])
  }

  /** The size that the last Content-Length header gives; `before` without one. */
  function SizeOf(c: Client, hs: seq<Header>, before: size_t): size_t {
    match LastValue(hs, CONTENT_LENGTH)
    case None => before
    case Some(v) => match c.scanUnsigned(v) { case Number(n) => n case NoNumber => SIZE_UNKNOWN }
  }

  function DeclaredSize(c: Client, hs: seq<Header>): size_t {
    SizeOf(c, hs, SIZE_UNKNOWN)
  }

  /** Whether the last Transfer-Encoding header says that there are chunks; `before` without one. */
  predicate ChunkedOf(hs: seq<Header>, before: bool) {
    match LastValue(hs, TRANSFER_ENCODING)
    case None => before
    case Some(v) => EqualNoCase(v, "chunked")
  }

  predicate SaysChunked(hs: seq<Header>) {
    ChunkedOf(hs, false)
  }

  /** The parser accepts every one of these headers. */
  predicate Accepted(c: Client, m: Machine, hs: seq<Header>)
    decreases |hs|
  {
    hs == [] ||
    var (m', result) := HeaderLine(c, m, hs[0].name, hs[0].value);
    result == Continue && Accepted(c, m', hs[1..])
  }

  function AfterHeaders(c: Client, m: Machine, hs: seq<Header>): Machine
    decreases |hs|
  {
    if hs == [] then m else AfterHeaders(c, HeaderLine(c, m, hs[0].name, hs[0].value).0, hs[1..])
  }

  /** No header has both names. */
  lemma TwoNames(h: Header)
    ensures !(Named(h, CONTENT_LENGTH) && Named(h, TRANSFER_ENCODING))
  {
    assert |CONTENT_LENGTH| == 14 && |TRANSFER_ENCODING| == 17;
  }

  lemma LastOfMore(h: Header, rest: seq<Header>, name: string)
    ensures LastValue([h] + rest, name) ==
      if LastValue(rest, name).Some? then LastValue(rest, name) else if Named(h, name) then Some(h.value) else None
    ensures LastValue([h], name) == if Named(h, name) then Some(h.value) else None
  {
    assert ([h] + rest)[1..] == rest && ([h] + rest)[0] == h;
    assert [h][1..] == [] && LastValue([], name) == None;
  }

  lemma OnlyHeader(c: Client, h: Header, size: size_t, chunked: bool)
    ensures SizeOf(c, [h], size) ==
      if !Named(h, CONTENT_LENGTH) then size
      else match c.scanUnsigned(h.value) { case Number(n) => n case NoNumber => SIZE_UNKNOWN }
    ensures ChunkedOf([h], chunked) == if Named(h, TRANSFER_ENCODING) then EqualNoCase(h.value, "chunked") else chunked
  {
    LastOfMore(h, [], CONTENT_LENGTH);
    LastOfMore(h, [], TRANSFER_ENCODING);
  }

  /** What the parser does with one header. */
  lemma OneHeader(c: Client, m: Machine, h: Header)
    ensures var (m', result) := HeaderLine(c, m, h.name, h.value);
      && (result == Continue <==> IsLegible(c, h)) && (result != Continue ==> result == Done(HE_PROTOCOL))
      && (result == Continue ==> m' == m.(
            headers := m.headers + [h], dataSize := SizeOf(c, [h], m.dataSize), chunked := ChunkedOf([h], m.chunked)))
  {
    assert Header(h.name, h.value) == h;
    TwoNames(h);
    OnlyHeader(c, h, m.dataSize, m.chunked);
  }

  lemma LegibleBoth(c: Client, h: Header, hs: seq<Header>)
    ensures Legible(c, [h] + hs) <==> IsLegible(c, h) && Legible(c, hs)
  {
    var both := [h] + hs;
    assert both[0] == h && forall i | 0 <= i < |hs| :: hs[i] == both[i + 1];
  }

  lemma FirstThenRest(c: Client, h: Header, hs: seq<Header>, size: size_t, chunked: bool)
    ensures SizeOf(c, hs, SizeOf(c, [h], size)) == SizeOf(c, [h] + hs, size)
    ensures ChunkedOf(hs, ChunkedOf([h], chunked)) == ChunkedOf([h] + hs, chunked)
    ensures Legible(c, [h] + hs) <==> IsLegible(c, h) && Legible(c, hs)
  {
    LastOfMore(h, hs, CONTENT_LENGTH);
    LastOfMore(h, hs, TRANSFER_ENCODING);
    LegibleBoth(c, h, hs);
  }

  /** The parser accepts the headers if and only if all of them are legible; it has then collected them, and knows what
      the last ones of the two names say. */
  lemma {:induction false} HeadersMean(c: Client, m: Machine, hs: seq<Header>)
    ensures Accepted(c, m, hs) <==> Legible(c, hs)
    ensures Legible(c, hs) ==> AfterHeaders(c, m, hs) == m.(
      headers := m.headers + hs, dataSize := SizeOf(c, hs, m.dataSize), chunked := ChunkedOf(hs, m.chunked))
    decreases |hs|
  {
    if hs == [] {
      assert m.headers + [] == m.headers;
    } else {
      var h, rest := hs[0], hs[1..];
      assert hs == [h] + rest;
      OneHeader(c, m, h);
      FirstThenRest(c, h, rest, m.dataSize, m.chunked);
      Seqs.Assoc(m.headers, [h], rest);
      HeadersMean(c, HeaderLine(c, m, h.name, h.value).0, rest);
    }
  }

  // ----- Which headers a sender sends, and whether it sends chunks -----

  /** A header arrives if its line is shorter than the buffer by more than three bytes. */
  predicate Arrives(h: Header) {
    |h.name| + |": "| + |h.value| + |"\r\n"| < 32 * 1024 - 3
  }

  function Arriving(hs: seq<Header>): seq<Header> {
    if hs == [] then [] else (if Arrives(hs[0]) then [hs[0]] else []) + Arriving(hs[1..])
  }

  /** What a sender sends of its headers are those that arrive, whole and in their order. */
  lemma {:induction false} ArrivingTexts(hs: seq<Header>)
    ensures HeaderTexts(hs) == HeaderTexts(Arriving(hs))
    ensures forall h :: h in Arriving(hs) <==> h in hs && Arrives(h)
    ensures forall h | h in Arriving(hs) :: Fits(h)
  {
    if hs != [] {
      ArrivingTexts(hs[1..]);
      assert Arrives(hs[0]) <==> Fits(hs[0]);
      if Arrives(hs[0]) {
        assert Arriving(hs)[1..] == Arriving(hs[1..]);
      } else {
        assert Arriving(hs) == Arriving(hs[1..]);
        assert HeaderTexts(hs) == "" + HeaderTexts(hs[1..]) == HeaderTexts(hs[1..]);
      }
      assert forall h :: h in hs <==> h == hs[0] || h in hs[1..];
    }
  }

  /** What hasHeader finds: the value of the first header of that name. */
  function FirstValue(hs: seq<Header>, name: string): Option<string> {
    if hs == [] then None else if Named(hs[0], name) then Some(hs[0].value) else FirstValue(hs[1..], name)
  }

  /** The sender sends chunks if the first Transfer-Encoding header is "chunked", in small letters. */
  predicate SendsChunks(hs: seq<Header>) {
    FirstValue(hs, TRANSFER_ENCODING) == Some("chunked")
  }

  /** What HttpBase::send makes of a message. */
  function MessageOf(leader: string, hs: seq<Header>, hasDocument: bool, document: string): Message {
    Message(leader, hs, hasDocument, SendsChunks(hs), document)
  }

  // ----- The headers of a document, as HttpData sets them -----

  lemma {:induction false} LastOfBoth(a: seq<Header>, b: seq<Header>, name: string)
    ensures LastValue(a + b, name) == if LastValue(b, name).Some? then LastValue(b, name) else LastValue(a, name)
  {
    if a == [] {
      assert a + b == b;
    } else {
      assert (a + b)[0] == a[0] && (a + b)[1..] == a[1..] + b;
      LastOfBoth(a[1..], b, name);
    }
  }

  lemma {:induction false} FirstOfBoth(a: seq<Header>, b: seq<Header>, name: string)
    ensures FirstValue(a + b, name) == if FirstValue(a, name).Some? then FirstValue(a, name) else FirstValue(b, name)
    ensures NoneNamed(a, name) ==> FirstValue(a, name) == None
  {
    if a == [] {
      assert a + b == b;
    } else {
      assert (a + b)[0] == a[0] && (a + b)[1..] == a[1..] + b;
      FirstOfBoth(a[1..], b, name);
      assert forall i | 0 <= i < |a| - 1 :: a[1..][i] == a[i + 1];
    }
  }

  lemma {:induction false} ArrivingBoth(a: seq<Header>, b: seq<Header>)
    ensures Arriving(a + b) == Arriving(a) + Arriving(b)
  {
    if a == [] {
      assert a + b == b;
    } else {
      assert (a + b)[0] == a[0] && (a + b)[1..] == a[1..] + b;
      ArrivingBoth(a[1..], b);
      Seqs.Assoc(if Arrives(a[0]) then [a[0]] else [], Arriving(a[1..]), Arriving(b));
    }
  }

  lemma {:induction false} ArrivingNone(hs: seq<Header>, name: string)
    requires NoneNamed(hs, name)
    ensures NoneNamed(Arriving(hs), name) && LastValue(Arriving(hs), name) == None
  {
    ArrivingTexts(hs);
    forall i | 0 <= i < |Arriving(hs)|
      ensures !Named(Arriving(hs)[i], name)
    {
      assert Arriving(hs)[i] in Arriving(hs);
    }
    LastValueIs(Arriving(hs), name);
  }

  /** One header of that name among others: it is the first and the last one. */
  lemma OnlyOne(a: seq<Header>, h: Header, b: seq<Header>, name: string)
    requires NoneNamed(a, name) && NoneNamed(b, name) && Arrives(h)
    ensures Arriving(a + [h] + b) == Arriving(a) + [h] + Arriving(b)
    ensures LastValue(Arriving(a + [h] + b), name) == if Named(h, name) then Some(h.value) else None
    ensures FirstValue(a + [h] + b, name) == if Named(h, name) then Some(h.value) else None
  {
    ArrivingBoth(a + [h], b);
    ArrivingBoth(a, [h]);
    assert [h][1..] == [] && Arriving([h]) == [h];
    ArrivingNone(a, name);
    ArrivingNone(b, name);
    LastOfBoth(Arriving(a) + [h], Arriving(b), name);
    LastOfBoth(Arriving(a), [h], name);
    LastOfMore(h, [], name);
    FirstOfBoth(a + [h], b, name);
    FirstOfBoth(a, [h], name);
    FirstOfBoth(b, [], name);
    assert b + [] == b;
  }

  /** Sender and receiver agree on whether there are chunks unless "chunked" is spelled with capital letters: then the
      receiver expects chunks that the sender does not send. */
  lemma AgreeExactly(a: seq<Header>, h: Header, b: seq<Header>)
    requires NoneNamed(a, TRANSFER_ENCODING) && NoneNamed(b, TRANSFER_ENCODING) && Arrives(h)
    requires Named(h, TRANSFER_ENCODING)
    ensures (SendsChunks(a + [h] + b) <==> SaysChunked(Arriving(a + [h] + b))) <==>
            (h.value == "chunked" || !EqualNoCase(h.value, "chunked"))
  {
    OnlyOne(a, h, b, TRANSFER_ENCODING);
  }
}
