/** The Base64 code of base64.cc (section 4 of RFC 4648) as functions, and what decoding does to an encoding. */
module Base64Codec {

  type Octet = n: nat | n < 256
  type Sextet = n: nat | n < 64

  // ----- The two tables -----

  const PD := 0xFD  // padding
  const SP := 0xFE  // white space
  const IL := 0xFF  // no character of the code

  /** Base64Table */
  function Letter(v: Sextet): char {
    if v < 26 then 'A' + v as char
    else if v < 52 then 'a' + (v - 26) as char
    else if v < 62 then '0' + (v - 52) as char
    else if v == 62 then '+' else '/'
  }

  /** DecodeTable */
  function Code(ch: char): Octet {
    var n := ch as int;
    if 'A' <= ch <= 'Z' then n - 65
    else if 'a' <= ch <= 'z' then n - 97 + 26
    else if '0' <= ch <= '9' then n - 48 + 52
    else if ch == '+' then 62
    else if ch == '/' then 63
    else if ch == '=' then PD
    else if 9 <= n <= 13 || ch == ' ' then SP
    else IL
  }

  /** The decode table inverts the encode table, and knows no other characters. */
  lemma TablesInverse(v: Sextet, ch: char)
    ensures Code(Letter(v)) == v
    ensures Code(ch) < 64 ==> Letter(Code(ch)) == ch
    ensures Code(ch) == PD <==> ch == '='
  {
  }

  // ----- Groups of three bytes and of four characters -----

  /** The four 6-bit groups of three bytes. */
  function Sextets(a: Octet, b: Octet, c: Octet): (q: seq<Sextet>)
    ensures |q| == 4
  {
    [a / 4, a % 4 * 16 + b / 16, b % 16 * 4 + c / 64, c % 64]
  }

  function Letters(q: seq<Sextet>): (s: string)
    ensures |s| == |q|
  {
    seq(|q|, i requires 0 <= i < |q| => Letter(q[i]))
  }

  function Equals(n: nat): (s: string)
    ensures |s| == n
  {
    seq(n, _ => '=')
  }

  /** The code of `x`, with or without the padding. */
  function EncodeWith(x: seq<Octet>, padded: bool): string {
    if |x| == 0 then ""
    else if |x| == 1 then Letters(Sextets(x[0], 0, 0)[..2]) + Equals(if padded then 2 else 0)
    else if |x| == 2 then Letters(Sextets(x[0], x[1], 0)[..3]) + Equals(if padded then 1 else 0)
    else Letters(Sextets(x[0], x[1], x[2])) + EncodeWith(x[3..], padded)
  }

  function Encode(x: seq<Octet>): string {
    EncodeWith(x, true)
  }

  /** The qbuf of a quantum: zeros after the sextets that were there. */
  function Filled(q: seq<Sextet>): (f: seq<Sextet>)
    requires |q| <= 4
    ensures |f| == 4
  {
    q + [0, 0, 0, 0][..4 - |q|]
  }

  /** The three bytes of four 6-bit groups. */
  function Octets(q: seq<Sextet>): (x: seq<Octet>)
    requires |q| == 4
    ensures |x| == 3
  {
    var a: nat, b: nat, c: nat, d: nat := q[0], q[1], q[2], q[3];
    [a * 4 + b / 16, b % 16 * 16 + c / 4, c % 4 * 64 + d]
  }

  /** How many whole bytes there are in `n` groups. */
  function Whole(n: nat): nat {
    if n <= 1 then 0 else n - 1
  }

  /** The bytes of a quantum, and the bits left over in it. */
  function Bytes(q: seq<Sextet>): seq<Octet>
    requires |q| <= 4
  {
    Octets(Filled(q))[..Whole(|q|)]
  }

  function LeftOver(q: seq<Sextet>): Octet
    requires |q| <= 4
  {
    if |q| == 4 then 0 else Octets(Filled(q))[Whole(|q|)]
  }

  lemma OctetsOfSextets(a: Octet, b: Octet, c: Octet)
    ensures Octets(Sextets(a, b, c)) == [a, b, c]
  {
  }

  lemma SextetsOfOctets(q: seq<Sextet>)
    requires |q| == 4
    ensures var x := Octets(q); Sextets(x[0], x[1], x[2]) == q
  {
    Regroup(q[0], q[1], q[2], q[3]);
  }

  lemma Regroup(a: nat, b: nat, c: nat, d: nat)
    requires a < 64 && b < 64 && c < 64 && d < 64
    ensures var x, y, z := a * 4 + b / 16, b % 16 * 16 + c / 4, c % 4 * 64 + d;
      x / 4 == a && x % 4 * 16 + y / 16 == b && y % 16 * 4 + z / 64 == c && z % 64 == d
  {
  }

  // ----- Decoding one quantum -----

  datatype Parse = Strict | White | Any
  datatype Pad = PadYes | PadAny | PadNo
  datatype Term = TermBuffer | TermChar | TermAny

  datatype Flags = Flags(parse: Parse, pad: Pad, term: Term)

  const STRICT := Flags(Strict, PadYes, TermBuffer)
  const LAX := Flags(Any, PadAny, TermChar)

  /** Where the scan for a quantum is: the groups found so far, and the pads after them. */
  datatype Scan = Scan(pos: nat, q: seq<Sextet>, pads: nat, padStart: nat)

  datatype Next = Stop | Go(scan: Scan)

  /** One round of the loop of GetNextQuantum. */
  function Step(f: Flags, code: Octet, at: Scan): Next
    requires code < 64 || code >= PD
  {
    var skip := at.(pos := at.pos + 1);
    if code == IL || (f.pad.PadNo? && code == PD) then
      if f.parse != Any then Stop else Go(skip)
    else if code == SP then
      if f.parse == Strict then Stop else Go(skip)
    else if code == PD then
      if |at.q| < 2 || |at.q| + at.pads >= 4 then
        if f.parse != Any then Stop else Go(skip)
      else Go(skip.(pads := at.pads + 1, padStart := if at.pads == 0 then at.pos else at.padStart))
    else
      if at.pads > 0 && f.parse != Any then Stop else Go(skip.(pads := 0, q := at.q + [code]))
  }

  /** The whole loop. */
  function ScanFrom(f: Flags, s: string, at: Scan): Scan
    decreases |s| - at.pos
  {
    if |at.q| >= 4 || at.pos >= |s| then at
    else
      match Step(f, Code(s[at.pos]), at)
      case Stop => at
      case Go(at') => ScanFrom(f, s, at')
  }

  function ScanStart(pos: nat): Scan {
    Scan(pos, [], 0, 0)
  }

  predicate Padded(at: Scan) {
    |at.q| + at.pads == 4
  }

  /** Where the scan ends: illegal padding is rolled back. */
  function EndPos(at: Scan): nat {
    if !Padded(at) && at.pads > 0 then at.padStart else at.pos
  }

  ghost predicate ScanInv(at: Scan, start: nat, s: string) {
    && start + |at.q| + at.pads <= at.pos <= |s| && |at.q| + at.pads <= 4
    && (at.pads > 0 ==> |at.q| >= 2 && start + |at.q| <= at.padStart < at.pos)
  }

  lemma {:induction false} ScanKeeps(f: Flags, s: string, at: Scan, start: nat)
    requires ScanInv(at, start, s)
    ensures ScanInv(ScanFrom(f, s, at), start, s)
    decreases |s| - at.pos
  {
    if |at.q| < 4 && at.pos < |s| {
      match Step(f, Code(s[at.pos]), at)
      case Stop =>
      case Go(at') => ScanKeeps(f, s, at', start);
    }
  }

  /** Despite the rollback, a quantum ends between where it started and the end of the text,
      and not before its groups. */
  lemma QuantumInBounds(f: Flags, s: string, start: nat)
    requires start <= |s|
    ensures var at := ScanFrom(f, s, ScanStart(start));
      |at.q| <= 4 && |at.q| + at.pads <= 4 && start + |at.q| <= EndPos(at) <= |s|
  {
    ScanKeeps(f, s, ScanStart(start), start);
  }

  // ----- Decoding a text -----

  datatype Decoded = Decoded(bytes: seq<Octet>, success: bool, used: nat)

  /** The decoder's loop, from `pos` on. */
  function DecodeFrom(f: Flags, s: string, pos: nat): Decoded
    requires pos <= |s|
    decreases |s| - pos
  {
    if pos == |s| then Decoded([], true, pos)
    else
      QuantumInBounds(f, s, pos);
      var at := ScanFrom(f, s, ScanStart(pos));
      var end := EndPos(at);
      if |at.q| < 4 then
        Decoded(Bytes(at.q),
                && (f.term.TermAny? || LeftOver(at.q) == 0)
                && (f.pad.PadYes? ==> Padded(at))
                && (f.term.TermBuffer? ==> end == |s|),
                end)
      else
        var rest := DecodeFrom(f, s, end);
        rest.(bytes := Bytes(at.q) + rest.bytes)
  }

  function Decode(f: Flags, s: string): Decoded {
    DecodeFrom(f, s, 0)
  }
}
