/** What decoding makes of any text at all where at most white space is ignored, under every choice of padding and of
    where the text may end. */
module Base64Exact {
  import opened Base64Codec
  import opened Base64Theorems
  import Seqs

  predicate IsLetter(ch: char) {
    exists v: Sextet :: ch == Letter(v)
  }

  /** The bits of the last character that belong to no whole byte. */
  function Unused(w: seq<Sextet>): nat {
    var k := |w| % 4;
    if k == 0 then 0 else if k == 1 then w[|w| - 1] else if k == 2 then w[|w| - 1] % 16 else w[|w| - 1] % 4
  }

  /** What an encoder would have written for the same bytes. */
  function Cleared(w: seq<Sextet>): seq<Sextet> {
    if |w| % 4 == 0 then w
    else if |w| % 4 == 1 then w[..|w| - 1]
    else w[|w| - 1 := w[|w| - 1] - Unused(w)]
  }

  /** How many pads behind `n` characters make them whole. */
  function Pads(f: Flags, n: nat, r: string): nat {
    if f.pad.PadNo? then 0
    else if n % 4 == 2 && |r| >= 2 && r[0] == '=' && r[1] == '=' then 2
    else if n % 4 == 3 && |r| >= 1 && r[0] == '=' then 1
    else 0
  }

  /** Decoding from `pos` on is a success. */
  predicate Succeeds(f: Flags, s: string, pos: nat, w: seq<Sextet>, r: string) {
    var pads := Pads(f, |w|, r);
    || (|w| % 4 == 0 && r == "" && !EndsIgnorably(f.parse, s, pos))
    || (&& (f.term.TermAny? || Unused(w) == 0)
        && (f.pad.PadYes? ==> pads > 0)
        && (f.term.TermBuffer? ==> |r| == pads))
  }

  /** `end` is in front of `t`, and behind any white space there. */
  predicate StopsAt(f: Flags, s: string, end: nat, t: string) {
    end <= |s| && Rest(f.parse, s, end) == t && (end < |s| ==> !Ignorable(f.parse, s[end]))
  }

  // ----- One quantum -----

  lemma LetterCode(v: Sextet)
    ensures Code(Letter(v)) == v
  {
    TablesInverse(v, 'A');
  }

  lemma LetterOfCode(ch: char)
    requires Code(ch) < 64
    ensures IsLetter(ch)
  {
    TablesInverse(0, ch);
    assert ch == Letter(Code(ch));
  }

  lemma NoLetterCode(ch: char)
    requires !IsLetter(ch)
    ensures Code(ch) == SP || Code(ch) == PD || Code(ch) == IL
    ensures Code(ch) == PD <==> ch == '='
  {
    if Code(ch) < 64 {
      LetterOfCode(ch);
    }
  }

  /** The letters are taken, and nothing behind the last one. */
  lemma {:induction false} ScansLetters(f: Flags, s: string, at: Scan, w: seq<Sextet>, t: string) returns (end: Scan)
    requires at.pos <= |s| && at.pads == 0 && |at.q| + |w| <= 4 && Rest(f.parse, s, at.pos) == Letters(w) + t
    ensures ScanFrom(f, s, at) == ScanFrom(f, s, end)
    ensures end.q == at.q + w && end.pads == 0 && at.pos <= end.pos <= |s| && Rest(f.parse, s, end.pos) == t
    ensures if w == [] then end == at else at.pos < end.pos && !Ignorable(f.parse, s[end.pos - 1])
    decreases |s| - at.pos
  {
    RestStep(f.parse, s, at.pos);
    if w == [] {
      end := at;
      assert Letters(w) + t == t && at.q + w == at.q;
    } else if Ignorable(f.parse, s[at.pos]) {
      SkipsIgnorable(f, s, at);
      end := ScansLetters(f, s, at.(pos := at.pos + 1), w, t);
    } else {
      TakesLetter(f, s, at, w, t);
      Seqs.Assoc(at.q, [w[0]], w[1..]);
      assert w == [w[0]] + w[1..];
      end := ScansLetters(f, s, Scan(at.pos + 1, at.q + [w[0]], 0, at.padStart), w[1..], t);
    }
  }

  /** White space is skipped. */
  lemma {:induction false} SkipsWhite(f: Flags, s: string, at: Scan) returns (end: Scan)
    requires at.pos <= |s| && |at.q| < 4
    ensures ScanFrom(f, s, at) == ScanFrom(f, s, end) && end == at.(pos := end.pos) && at.pos <= end.pos
    ensures StopsAt(f, s, end.pos, Rest(f.parse, s, at.pos))
    ensures end.pos < |s| <==> Rest(f.parse, s, at.pos) != ""
    ensures end.pos < |s| ==> s[end.pos] == Rest(f.parse, s, at.pos)[0]
    ensures end.pos < |s| ==> Rest(f.parse, s, end.pos + 1) == Rest(f.parse, s, at.pos)[1..]
    decreases |s| - at.pos
  {
    RestStep(f.parse, s, at.pos);
    if at.pos < |s| && Ignorable(f.parse, s[at.pos]) {
      SkipsIgnorable(f, s, at);
      end := SkipsWhite(f, s, at.(pos := at.pos + 1));
    } else {
      end := at;
    }
  }

  /** Where the scan of the last quantum stops, behind its letters. */
  lemma ScanStops(f: Flags, s: string, at: Scan)
    requires !f.parse.Any? && |at.q| < 4 && at.pos <= |s|
    requires at.pos < |s| ==> !Ignorable(f.parse, s[at.pos]) && (!IsLetter(s[at.pos]) || at.pads > 0)
    requires at.pos < |s| && s[at.pos] == '=' ==> f.pad.PadNo? || |at.q| < 2 || |at.q| + at.pads >= 4
    ensures ScanFrom(f, s, at) == at
  {
    if at.pos < |s| && !IsLetter(s[at.pos]) {
      NoLetterCode(s[at.pos]);
    } else if at.pos < |s| {
      var v: Sextet :| s[at.pos] == Letter(v);
      LetterCode(v);
    }
  }

  lemma ScanPad(f: Flags, s: string, at: Scan)
    requires !f.pad.PadNo? && 2 <= |at.q| < 4 && at.pos < |s| && s[at.pos] == '=' && |at.q| + at.pads < 4
    ensures ScanFrom(f, s, at) ==
      ScanFrom(f, s, Scan(at.pos + 1, at.q, at.pads + 1, if at.pads == 0 then at.pos else at.padStart))
  {
    var next := Scan(at.pos + 1, at.q, at.pads + 1, if at.pads == 0 then at.pos else at.padStart);
    assert Step(f, Code(s[at.pos]), at) == Go(next);
  }

  /** A quantum of these letters, and the pads behind them that make it whole. */
  predicate IsQuantum(f: Flags, s: string, end: Scan, q: seq<Sextet>, r: string) {
    var pads := Pads(f, |q|, r);
    end.q == q && (Padded(end) <==> pads > 0) && StopsAt(f, s, EndPos(end), r[pads..])
  }

  lemma NoPads(f: Flags, s: string, at: Scan, r: string)
    requires !f.parse.Any? && |at.q| < 4 && at.pads == 0 && at.pos <= |s| && Rest(f.parse, s, at.pos) == r
    requires r != "" ==> !IsLetter(r[0])
    requires r == "" || r[0] != '=' || f.pad.PadNo? || |at.q| < 2
    ensures IsQuantum(f, s, ScanFrom(f, s, at), at.q, r)
  {
    var end := SkipsWhite(f, s, at);
    ScanStops(f, s, end);
    assert r[0..] == r;
  }

  /** The first pad, and the white space before and behind it. */
  lemma FirstPad(f: Flags, s: string, at: Scan, r: string) returns (start: nat, end: Scan)
    requires |at.q| < 4 && at.pads == 0 && at.pos <= |s| && Rest(f.parse, s, at.pos) == r
    requires r != "" && r[0] == '=' && !f.pad.PadNo? && |at.q| >= 2
    ensures StopsAt(f, s, start, r) && start < |s|
    ensures ScanFrom(f, s, at) == ScanFrom(f, s, end) && end == Scan(end.pos, at.q, 1, start)
    ensures StopsAt(f, s, end.pos, r[1..]) && (end.pos < |s| <==> |r| >= 2) && (|r| >= 2 ==> s[end.pos] == r[1])
    ensures end.pos < |s| ==> Rest(f.parse, s, end.pos + 1) == r[1..][1..]
  {
    var before := SkipsWhite(f, s, at);
    start := before.pos;
    ScanPad(f, s, before);
    end := SkipsWhite(f, s, Scan(start + 1, at.q, 1, start));
  }

  lemma TwoPads(f: Flags, s: string, at: Scan, r: string)
    requires !f.parse.Any? && |at.q| == 2 && at.pads == 0 && at.pos <= |s| && Rest(f.parse, s, at.pos) == r
    requires |r| >= 2 && r[0] == '=' && r[1] == '=' && !f.pad.PadNo?
    ensures IsQuantum(f, s, ScanFrom(f, s, at), at.q, r)
  {
    var start, one := FirstPad(f, s, at, r);
    ScanPad(f, s, one);
    var end := SkipsWhite(f, s, Scan(one.pos + 1, at.q, 2, start));
    StopsBehindTwo(f, s, end);
    assert r[1..][1..] == r[2..];
  }

  /** Nothing can be taken any more. */
  lemma StopsBehindTwo(f: Flags, s: string, at: Scan)
    requires !f.parse.Any? && 2 <= |at.q| < 4 && at.pads > 0 && at.pos <= |s|
    requires at.pos < |s| ==> !Ignorable(f.parse, s[at.pos])
    requires |at.q| + at.pads >= 4 || at.pos == |s| || s[at.pos] != '='
    ensures ScanFrom(f, s, at) == at
  {
    ScanStops(f, s, at);
  }

  lemma OnePad(f: Flags, s: string, at: Scan, r: string)
    requires !f.parse.Any? && 2 <= |at.q| < 4 && at.pads == 0 && at.pos <= |s| && Rest(f.parse, s, at.pos) == r
    requires r != "" && r[0] == '=' && !f.pad.PadNo? && (|at.q| == 3 || |r| == 1 || r[1] != '=')
    ensures IsQuantum(f, s, ScanFrom(f, s, at), at.q, r)
  {
    var start, end := FirstPad(f, s, at, r);
    StopsBehindTwo(f, s, end);
    assert r[0..] == r;
  }

  /** What may follow the last letters. */
  lemma PadsBehind(f: Flags, s: string, at: Scan, r: string)
    requires !f.parse.Any? && |at.q| < 4 && at.pads == 0 && at.pos <= |s| && Rest(f.parse, s, at.pos) == r
    requires r != "" ==> !IsLetter(r[0])
    ensures IsQuantum(f, s, ScanFrom(f, s, at), at.q, r)
  {
    if r == "" || r[0] != '=' || f.pad.PadNo? || |at.q| < 2 {
      NoPads(f, s, at, r);
    } else if |at.q| == 2 && |r| >= 2 && r[1] == '=' {
      TwoPads(f, s, at, r);
    } else {
      OnePad(f, s, at, r);
    }
  }

  /** The scan of fewer than four letters. */
  lemma LastQuantum(f: Flags, s: string, pos: nat, w: seq<Sextet>, r: string)
    requires !f.parse.Any? && |w| < 4 && pos <= |s| && Rest(f.parse, s, pos) == Letters(w) + r
    requires r != "" ==> !IsLetter(r[0])
    ensures IsQuantum(f, s, ScanFrom(f, s, ScanStart(pos)), w, r)
  {
    var end := ScansLetters(f, s, ScanStart(pos), w, r);
    assert [] + w == w;
    PadsBehind(f, s, end, r);
  }

  // ----- All of them -----

  lemma LettersOne(w: seq<Sextet>, v: seq<Sextet>)
    requires Letters(w) == Letters(v)
    ensures w == v
  {
    assert |w| == |v|;
    forall i | 0 <= i < |w|
      ensures w[i] == v[i]
    {
      assert Letters(w)[i] == Letter(w[i]) && Letters(v)[i] == Letter(v[i]);
      LetterCode(w[i]);
      LetterCode(v[i]);
    }
  }

  lemma {:induction false} UnpaddedLength(x: seq<Octet>)
    ensures |EncodeWith(x, false)| == (4 * |x| + 2) / 3
  {
    if |x| >= 3 {
      UnpaddedLength(x[3..]);
    }
  }

  lemma TwoBytes(a: nat, b: nat, p: nat, q: nat, r: nat)
    requires a < 256 && b < 256 && r < 64 && p == a / 4 && q == a % 4 * 16 + b / 16 && r - r % 4 == b % 16 * 4
    ensures p * 4 + q / 16 == a && q % 16 * 16 + r / 4 == b
  {
    assert r / 4 == b % 16;
  }

  lemma UnpaddedCode(x: seq<Octet>)
    ensures |x| == 1 ==> EncodeWith(x, false) == Letters(Sextets(x[0], 0, 0)[..2])
    ensures |x| == 2 ==> EncodeWith(x, false) == Letters(Sextets(x[0], x[1], 0)[..3])
    ensures |x| >= 3 ==> EncodeWith(x, false) == Letters(Sextets(x[0], x[1], x[2])) + EncodeWith(x[3..], false)
  {
    assert forall s: string :: s + Equals(0) == s;
  }

  lemma BytesOfThree(w: seq<Sextet>)
    requires |w| == 3
    ensures var a: nat, b: nat, c: nat := w[0], w[1], w[2];
      Bytes(w) == [a * 4 + b / 16, b % 16 * 16 + c / 4] && LeftOver(w) == c % 4 * 64
  {
    assert Filled(w) == w + [0];
  }

  lemma BytesOfTwo(w: seq<Sextet>)
    requires |w| == 2
    ensures var a: nat, b: nat := w[0], w[1]; Bytes(w) == [a * 4 + b / 16] && LeftOver(w) == b % 16 * 16
  {
    assert Filled(w) == w + [0, 0];
  }

  lemma LastTwoBytes(w: seq<Sextet>, x: seq<Octet>)
    requires |w| == 3 && |x| == 2 && Cleared(w) == Sextets(x[0], x[1], 0)[..3]
    ensures Bytes(w) == x && (LeftOver(w) == 0 <==> Unused(w) == 0)
  {
    assert w[0] == Cleared(w)[0] && w[1] == Cleared(w)[1] && w[2] - w[2] % 4 == Cleared(w)[2];
    TwoBytes(x[0], x[1], w[0], w[1], w[2]);
    BytesOfThree(w);
    assert x == [x[0], x[1]];
  }

  lemma LastByte(w: seq<Sextet>, x: seq<Octet>)
    requires |w| == 2 && |x| == 1 && Cleared(w) == Sextets(x[0], 0, 0)[..2]
    ensures Bytes(w) == x && (LeftOver(w) == 0 <==> Unused(w) == 0)
  {
    assert w[0] == Cleared(w)[0] && w[1] - w[1] % 16 == Cleared(w)[1];
    BytesOfTwo(w);
    assert x == [x[0]];
  }

  /** The bytes of fewer than four characters. */
  lemma LastBytes(w: seq<Sextet>, x: seq<Octet>)
    requires |w| < 4 && EncodeWith(x, false) == Letters(Cleared(w))
    ensures Bytes(w) == x && (LeftOver(w) == 0 <==> Unused(w) == 0)
  {
    UnpaddedLength(x);
    UnpaddedCode(x);
    if |w| == 2 {
      LettersOne(Cleared(w), Sextets(x[0], 0, 0)[..2]);
      LastByte(w, x);
    } else if |w| == 3 {
      LettersOne(Cleared(w), Sextets(x[0], x[1], 0)[..3]);
      LastTwoBytes(w, x);
    }
  }

  lemma ClearedTail(w: seq<Sextet>)
    requires |w| >= 4
    ensures |Cleared(w)| >= 4 && Cleared(w)[..4] == w[..4] && Cleared(w)[4..] == Cleared(w[4..])
  {
    UnusedTail(w);
  }

  lemma UnusedTail(w: seq<Sextet>)
    requires |w| >= 4
    ensures |w[4..]| % 4 == |w| % 4 && Unused(w) == Unused(w[4..])
  {
  }

  lemma LettersCut(w: seq<Sextet>, n: nat)
    requires n <= |w|
    ensures Letters(w)[..n] == Letters(w[..n]) && Letters(w)[n..] == Letters(w[n..])
  {
  }

  lemma CutAfterFour(a: string, b: string, whole: string)
    requires |a| == 4 && a + b == whole
    ensures |whole| >= 4 && a == whole[..4] && b == whole[4..]
  {
  }

  lemma FirstCode(w: seq<Sextet>, x: seq<Octet>)
    requires |w| >= 4 && EncodeWith(x, false) == Letters(Cleared(w))
    ensures |x| >= 3 && Letters(Sextets(x[0], x[1], x[2])) == Letters(Cleared(w)[..4])
    ensures EncodeWith(x[3..], false) == Letters(Cleared(w)[4..])
  {
    assert |Cleared(w)| >= 4 by {
      ClearedTail(w);
    }
    UnpaddedLength(x);
    UnpaddedCode(x);
    CutAfterFour(Letters(Sextets(x[0], x[1], x[2])), EncodeWith(x[3..], false), Letters(Cleared(w)));
    LettersCut(Cleared(w), 4);
  }

  lemma FourBytes(q: seq<Sextet>, x: seq<Octet>)
    requires |x| >= 3 && q == Sextets(x[0], x[1], x[2])
    ensures Bytes(q) == x[..3]
  {
    OctetsOfSextets(x[0], x[1], x[2]);
    assert Filled(q) == q;
  }

  /** The bytes of the first four characters, and what is left. */
  lemma FirstBytes(w: seq<Sextet>, x: seq<Octet>)
    requires |w| >= 4 && EncodeWith(x, false) == Letters(Cleared(w))
    ensures |x| >= 3 && Bytes(w[..4]) == x[..3] && EncodeWith(x[3..], false) == Letters(Cleared(w[4..]))
  {
    FirstCode(w, x);
    assert w[..4] == Sextets(x[0], x[1], x[2]) by {
      ClearedTail(w);
      LettersOne(Sextets(x[0], x[1], x[2]), w[..4]);
    }
    FourBytes(w[..4], x);
    assert Cleared(w)[4..] == Cleared(w[4..]) by {
      ClearedTail(w);
    }
  }

  /** Decoding from `pos` on comes to this. */
  predicate Comes(f: Flags, s: string, pos: nat, w: seq<Sextet>, r: string, x: seq<Octet>)
    requires pos <= |s|
  {
    var d := DecodeFrom(f, s, pos);
    d.bytes == x && d.success == Succeeds(f, s, pos, w, r) && StopsAt(f, s, d.used, r[Pads(f, |w|, r)..])
  }

  lemma ExactLast(f: Flags, s: string, pos: nat, w: seq<Sextet>, r: string, x: seq<Octet>)
    requires !f.parse.Any? && pos <= |s| && |w| < 4 && Rest(f.parse, s, pos) == Letters(w) + r
    requires (r != "" ==> !IsLetter(r[0])) && EncodeWith(x, false) == Letters(Cleared(w))
    ensures Comes(f, s, pos, w, r, x)
  {
    RestStep(f.parse, s, pos);
    UnpaddedLength(x);
    LastBytes(w, x);
    if pos < |s| {
      LastQuantum(f, s, pos, w, r);
      EndsWhere(f, s, pos, w, r);
    }
  }

  /** When all of the text has been used, and whether white space is all that is left. */
  lemma EndsWhere(f: Flags, s: string, pos: nat, w: seq<Sextet>, r: string)
    requires pos < |s| && Rest(f.parse, s, pos) == Letters(w) + r
    ensures forall end, t | StopsAt(f, s, end, t) :: end == |s| <==> t == ""
    ensures w == [] && r == "" ==> EndsIgnorably(f.parse, s, pos)
  {
    forall end, t | StopsAt(f, s, end, t)
      ensures end == |s| <==> t == ""
    {
      RestStep(f.parse, s, end);
    }
    if w == [] && r == "" {
      AllIgnored(f.parse, s, pos);
    }
  }

  lemma FirstQuantum(f: Flags, s: string, pos: nat, w: seq<Sextet>, t: string) returns (e: nat)
    requires pos <= |s| && |w| == 4 && Rest(f.parse, s, pos) == Letters(w) + t
    ensures pos < e <= |s| && Rest(f.parse, s, e) == t && !Ignorable(f.parse, s[e - 1])
    ensures var rest := DecodeFrom(f, s, e); DecodeFrom(f, s, pos) == rest.(bytes := Bytes(w) + rest.bytes)
  {
    var end := ScansLetters(f, s, ScanStart(pos), w, t);
    assert [] + w == w;
    e := end.pos;
    assert ScanFrom(f, s, ScanStart(pos)) == end;
  }

  lemma SucceedsLater(f: Flags, s: string, pos: nat, e: nat, w: seq<Sextet>, r: string)
    requires |w| >= 4 && pos < e <= |s| && !Ignorable(f.parse, s[e - 1])
    ensures Succeeds(f, s, pos, w, r) == Succeeds(f, s, e, w[4..], r) && Pads(f, |w|, r) == Pads(f, |w| - 4, r)
  {
    UnusedTail(w);
  }

  lemma {:induction false} ExactFrom(f: Flags, s: string, pos: nat, w: seq<Sextet>, r: string, x: seq<Octet>)
    requires !f.parse.Any? && pos <= |s| && Rest(f.parse, s, pos) == Letters(w) + r
    requires (r != "" ==> !IsLetter(r[0])) && EncodeWith(x, false) == Letters(Cleared(w))
    ensures Comes(f, s, pos, w, r, x)
    decreases |w|
  {
    if |w| < 4 {
      ExactLast(f, s, pos, w, r, x);
    } else {
      LettersCut(w, 4);
      assert Letters(w) == Letters(w[..4]) + Letters(w[4..]);
      Seqs.Assoc(Letters(w[..4]), Letters(w[4..]), r);
      var e := FirstQuantum(f, s, pos, w[..4], Letters(w[4..]) + r);
      FirstBytes(w, x);
      ExactFrom(f, s, e, w[4..], r, x[3..]);
      SucceedsLater(f, s, pos, e, w, r);
      assert x == x[..3] + x[3..];
    }
  }

  /** Without the white space that is ignored, a text consists of characters of the code, and a rest that starts with
      none: what comes out is what an encoder would write as these characters, but for unused bits, and reading ends
      behind them and the pads that make them whole.  It is a success if required pads are there, nothing is left that
      must be read, and unused bits, where they count, are zero. */
  lemma ParseExactly(f: Flags, s: string, w: seq<Sextet>, r: string, x: seq<Octet>)
    requires !f.parse.Any? && Strip(f.parse, s) == Letters(w) + r && (r != "" ==> !IsLetter(r[0]))
    requires EncodeWith(x, false) == Letters(Cleared(w))
    ensures var d := Decode(f, s);
      d.bytes == x && d.success == Succeeds(f, s, 0, w, r) && StopsAt(f, s, d.used, r[Pads(f, |w|, r)..])
  {
    assert s[0..] == s;
    ExactFrom(f, s, 0, w, r, x);
  }

  /** Every text has such a beginning. */
  lemma {:induction false} LettersThenRest(s: string) returns (w: seq<Sextet>, r: string)
    ensures s == Letters(w) + r && (r != "" ==> !IsLetter(r[0]))
  {
    if s == "" || !IsLetter(s[0]) {
      w, r := [], s;
    } else {
      var v: Sextet :| s[0] == Letter(v);
      w, r := LettersThenRest(s[1..]);
      assert Letters([v] + w) == [s[0]] + Letters(w);
      w := [v] + w;
    }
  }

  /** And every such beginning stands for some bytes. */
  lemma {:induction false} StandsForBytes(w: seq<Sextet>) returns (x: seq<Octet>)
    ensures EncodeWith(x, false) == Letters(Cleared(w))
  {
    if |w| < 4 {
      x := Bytes(w);
      LastEncoded(w);
    } else {
      var rest := StandsForBytes(w[4..]);
      ClearedTail(w);
      SextetsOfOctets(w[..4]);
      x := Octets(w[..4]) + rest;
      assert x[3..] == rest;
      assert Letters(Cleared(w)) == Letters(w[..4]) + Letters(Cleared(w[4..]));
    }
  }

  lemma LastEncoded(w: seq<Sextet>)
    requires |w| < 4
    ensures EncodeWith(Bytes(w), false) == Letters(Cleared(w))
  {
    if |w| == 2 {
      TwoEncoded(w);
    } else if |w| == 3 {
      ThreeEncoded(w);
    }
  }

  lemma TwoEncoded(w: seq<Sextet>)
    requires |w| == 2
    ensures EncodeWith(Bytes(w), false) == Letters(Cleared(w))
  {
    var a: nat, b: nat := w[0], w[1];
    BytesOfTwo(w);
    UnpaddedCode(Bytes(w));
    Regroup(a, b, 0, 0);
    assert Sextets(a * 4 + b / 16, 0, 0)[..2] == [a, b - b % 16] == Cleared(w);
  }

  lemma ThreeEncoded(w: seq<Sextet>)
    requires |w| == 3
    ensures EncodeWith(Bytes(w), false) == Letters(Cleared(w))
  {
    var a: nat, b: nat, c: nat := w[0], w[1], w[2];
    BytesOfThree(w);
    UnpaddedCode(Bytes(w));
    Regroup(a, b, c, 0);
    assert Sextets(a * 4 + b / 16, b % 16 * 16 + c / 4, 0)[..3] == [a, b, c - c % 4] == Cleared(w);
  }
}
