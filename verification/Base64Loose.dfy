/** Parsing of any text at all with DO_PARSE_ANY, under every choice of padding and of where the text may end. */
module Base64Loose {
  import opened Base64Codec
  import opened Base64Exact
  import Seqs

  /** The characters of the code in a text. */
  function LettersIn(s: string): seq<Sextet> {
    if s == "" then [] else (if Code(s[0]) < 64 then [Code(s[0])] else []) + LettersIn(s[1..])
  }

  function CountPads(s: string): nat {
    if s == "" then 0 else (if s[0] == '=' then 1 else 0) + CountPads(s[1..])
  }

  function PadIndex(s: string): (i: nat)
    ensures i <= |s|
  {
    if s == "" || s[0] == '=' then 0 else 1 + PadIndex(s[1..])
  }

  lemma LettersFrom(s: string, pos: nat, t: nat)
    requires pos < t <= |s|
    ensures LettersIn(s[pos..t]) ==
      (if Code(s[pos]) < 64 then [Code(s[pos])] else []) + LettersIn(s[pos + 1..t])
  {
    assert s[pos..t][0] == s[pos] && s[pos..t][1..] == s[pos + 1..t];
  }

  /** Where the first `n` of them end. */
  lemma {:induction false} LetterEnds(s: string, pos: nat, t: nat, n: nat) returns (e: nat)
    requires pos <= t <= |s| && n <= |LettersIn(s[pos..t])|
    ensures pos <= e <= t && LettersIn(s[pos..e]) == LettersIn(s[pos..t])[..n]
    ensures LettersIn(s[e..t]) == LettersIn(s[pos..t])[n..]
    ensures if n == 0 then e == pos else e > pos && Code(s[e - 1]) < 64
    decreases t - pos
  {
    if n == 0 {
      e := pos;
      assert s[pos..pos] == "";
    } else {
      LettersFrom(s, pos, t);
      e := LetterEnds(s, pos + 1, t, if Code(s[pos]) < 64 then n - 1 else n);
      LettersFrom(s, pos, e);
    }
  }

  // ----- One quantum -----

  /** The scan reaches the end of a letter with that letter, and no pads. */
  lemma {:induction false} ScansTo(f: Flags, s: string, at: Scan, e: nat) returns (end: Scan)
    requires f.parse.Any? && at.pos <= e <= |s| && |at.q| + |LettersIn(s[at.pos..e])| <= 4
    requires if e == at.pos then at.pads == 0 else Code(s[e - 1]) < 64
    ensures ScanFrom(f, s, at) == ScanFrom(f, s, end)
    ensures end.pos == e && end.q == at.q + LettersIn(s[at.pos..e]) && end.pads == 0
    decreases e - at.pos
  {
    if at.pos == e {
      end := at;
      assert s[e..e] == "" && at.q + [] == at.q;
    } else {
      LettersFrom(s, at.pos, e);
      SomeLetter(s, at.pos, e);
      var next := Step(f, Code(s[at.pos]), at).scan;
      end := ScansTo(f, s, next, e);
      StepAdds(f, s, at, e);
    }
  }

  lemma {:induction false} SomeLetter(s: string, pos: nat, e: nat)
    requires pos < e <= |s| && Code(s[e - 1]) < 64
    ensures LettersIn(s[pos..e]) != []
    decreases e - pos
  {
    LettersFrom(s, pos, e);
    if pos + 1 < e {
      SomeLetter(s, pos + 1, e);
    }
  }

  lemma AnyStep(f: Flags, code: Octet, at: Scan)
    requires f.parse.Any? && (code < 64 || code >= PD)
    ensures var next := Step(f, code, at);
      && next.Go? && next.scan.pos == at.pos + 1
      && next.scan.q == at.q + (if code < 64 then [code] else []) && (code < 64 ==> next.scan.pads == 0)
  {
    assert at.q + [] == at.q;
  }

  lemma AnyScan(f: Flags, s: string, at: Scan)
    requires f.parse.Any? && at.pos < |s| && |at.q| < 4
    ensures var next := Step(f, Code(s[at.pos]), at); next.Go? && ScanFrom(f, s, at) == ScanFrom(f, s, next.scan)
  {
    AnyStep(f, Code(s[at.pos]), at);
  }

  lemma StepAdds(f: Flags, s: string, at: Scan, e: nat)
    requires f.parse.Any? && at.pos < e <= |s| && |at.q| < 4
    ensures var next := Step(f, Code(s[at.pos]), at);
      && next.Go? && ScanFrom(f, s, at) == ScanFrom(f, s, next.scan) && next.scan.pos == at.pos + 1
      && next.scan.q + LettersIn(s[at.pos + 1..e]) == at.q + LettersIn(s[at.pos..e])
      && (Code(s[at.pos]) < 64 ==> next.scan.pads == 0)
  {
    var code := Code(s[at.pos]);
    LettersFrom(s, at.pos, e);
    AnyStep(f, code, at);
    AnyScan(f, s, at);
    Seqs.Assoc(at.q, if code < 64 then [code] else [], LettersIn(s[at.pos + 1..e]));
  }

  predicate NoLetters(s: string) {
    forall i | 0 <= i < |s| :: Code(s[i]) >= 64
  }

  /** How many pads the scan may count. */
  function Room(f: Flags, q: seq<Sextet>): nat {
    if f.pad.PadNo? || |q| < 2 || |q| > 4 then 0 else 4 - |q|
  }

  /** What the scan of a text without letters makes of its pads: it counts as many as there is room for, and knows
      where the first one is. */
  ghost predicate PadsCounted(f: Flags, at: Scan, end: Scan, s: string) {
    && end.q == at.q && end.pos == at.pos + |s|
    && end.pads == (if at.pads + CountPads(s) < Room(f, at.q) then at.pads + CountPads(s) else Room(f, at.q))
    && (end.pads > 0 ==> end.padStart == if at.pads > 0 then at.padStart else at.pos + PadIndex(s))
  }

  lemma {:induction false} ScansPads(f: Flags, s: string, at: Scan)
    requires f.parse.Any? && |at.q| < 4 && at.pos <= |s| && NoLetters(s[at.pos..]) && at.pads <= Room(f, at.q)
    ensures PadsCounted(f, at, ScanFrom(f, s, at), s[at.pos..])
    decreases |s| - at.pos
  {
    if at.pos < |s| {
      var tail := s[at.pos..];
      assert tail[0] == s[at.pos] && tail[1..] == s[at.pos + 1..];
      AnyScan(f, s, at);
      NoLetterStep(f, tail[0], at);
      ScansPads(f, s, Step(f, Code(tail[0]), at).scan);
    }
  }

  lemma NoLetterStep(f: Flags, ch: char, at: Scan)
    requires f.parse.Any? && Code(ch) >= 64 && |at.q| < 4 && at.pads <= Room(f, at.q)
    ensures var skip := at.(pos := at.pos + 1);
      Step(f, Code(ch), at) == Go(
        if ch == '=' && at.pads < Room(f, at.q)
        then skip.(pads := at.pads + 1, padStart := if at.pads == 0 then at.pos else at.padStart)
        else skip)
  {
    TablesInverse(0, ch);
  }

  // ----- All of them -----

  /** Where decoding a text ends that has so many letters up to `t`, and none behind. */
  function End(f: Flags, s: string, t: nat, n: nat): nat
    requires t <= |s|
  {
    if !f.pad.PadNo? && n % 4 == 2 && CountPads(s[t..]) == 1 then t + PadIndex(s[t..]) else |s|
  }

  predicate EnoughPads(f: Flags, s: string, t: nat, n: nat)
    requires t <= |s|
  {
    !f.pad.PadNo? && n % 4 >= 2 && CountPads(s[t..]) >= 4 - n % 4
  }

  predicate Passes(f: Flags, s: string, t: nat, w: seq<Sextet>)
    requires t <= |s|
  {
    || (|w| % 4 == 0 && t == |s|)
    || (&& (f.term.TermAny? || Unused(w) == 0)
        && (f.pad.PadYes? ==> EnoughPads(f, s, t, |w|))
        && (f.term.TermBuffer? ==> End(f, s, t, |w|) == |s|))
  }

  /** From `pos` to `t` there are these letters, and the last one of them is the last of all. */
  ghost predicate Between(s: string, pos: nat, t: nat, w: seq<Sextet>) {
    && pos <= t <= |s| && LettersIn(s[pos..t]) == w && NoLetters(s[t..])
    && (pos < t ==> Code(s[t - 1]) < 64)
  }

  lemma LastLoose(f: Flags, s: string, pos: nat, t: nat, w: seq<Sextet>)
    requires f.parse.Any? && Between(s, pos, t, w) && |w| < 4
    ensures var at := ScanFrom(f, s, ScanStart(pos));
      at.q == w && EndPos(at) == End(f, s, t, |w|) && (Padded(at) <==> EnoughPads(f, s, t, |w|))
  {
    var end := ScansTo(f, s, ScanStart(pos), t);
    assert [] + w == w;
    ScansPads(f, s, end);
  }

  lemma LooseLast(f: Flags, s: string, pos: nat, t: nat, w: seq<Sextet>, x: seq<Octet>)
    requires f.parse.Any? && Between(s, pos, t, w) && |w| < 4 && EncodeWith(x, false) == Letters(Cleared(w))
    ensures DecodeFrom(f, s, pos) == Decoded(x, Passes(f, s, t, w), End(f, s, t, |w|))
  {
    if pos < t {
      SomeLetter(s, pos, t);
    } else {
      assert s[pos..t] == "";
    }
    UnpaddedLength(x);
    LastBytes(w, x);
    LastLoose(f, s, pos, t, w);
  }

  lemma LooseFirst(f: Flags, s: string, pos: nat, e: nat)
    requires f.parse.Any? && pos < e <= |s| && |LettersIn(s[pos..e])| == 4 && Code(s[e - 1]) < 64
    ensures var rest := DecodeFrom(f, s, e);
      DecodeFrom(f, s, pos) == rest.(bytes := Bytes(LettersIn(s[pos..e])) + rest.bytes)
  {
    var w := LettersIn(s[pos..e]);
    var end := ScansTo(f, s, ScanStart(pos), e);
    assert [] + w == w;
    assert ScanFrom(f, s, ScanStart(pos)) == end;
  }

  lemma PassesLater(f: Flags, s: string, t: nat, w: seq<Sextet>)
    requires t <= |s| && |w| >= 4
    ensures Passes(f, s, t, w) == Passes(f, s, t, w[4..]) && End(f, s, t, |w|) == End(f, s, t, |w| - 4)
  {
    UnusedTail(w);
  }

  lemma BetweenLater(s: string, pos: nat, e: nat, t: nat, w: seq<Sextet>)
    requires Between(s, pos, t, w) && pos < e <= t && |w| >= 4 && LettersIn(s[e..t]) == w[4..]
    ensures Between(s, e, t, w[4..])
  {
  }

  lemma {:induction false} LooseFrom(f: Flags, s: string, pos: nat, t: nat, w: seq<Sextet>, x: seq<Octet>)
    requires f.parse.Any? && Between(s, pos, t, w) && EncodeWith(x, false) == Letters(Cleared(w))
    ensures DecodeFrom(f, s, pos) == Decoded(x, Passes(f, s, t, w), End(f, s, t, |w|))
    decreases |w|
  {
    if |w| < 4 {
      LooseLast(f, s, pos, t, w, x);
    } else {
      var e := LetterEnds(s, pos, t, 4);
      LooseFirst(f, s, pos, e);
      BetweenLater(s, pos, e, t, w);
      PassesLater(f, s, t, w);
      FirstBytes(w, x);
      LooseFrom(f, s, e, t, w[4..], x[3..]);
      assert x == x[..3] + x[3..];
    }
  }

  /** With DO_PARSE_ANY the characters of the code are read up to the last one, whatever is between them, and what comes
      out is what an encoder would write that way, but for unused bits.  Only the pads behind the last character count:
      if one is there where two should be, that is where reading ends, and otherwise all of the text is used. */
  lemma AnyParse(f: Flags, s: string, t: nat, w: seq<Sextet>, x: seq<Octet>)
    requires f.parse.Any? && Between(s, 0, t, w) && EncodeWith(x, false) == Letters(Cleared(w))
    ensures Decode(f, s) == Decoded(x, Passes(f, s, t, w), End(f, s, t, |w|))
  {
    LooseFrom(f, s, 0, t, w, x);
  }

  /** Every text has a last character of the code, or none. */
  lemma LastLetter(s: string) returns (t: nat)
    ensures t <= |s| && Between(s, 0, t, LettersIn(s[0..t]))
  {
    t := |s|;
    while t > 0 && Code(s[t - 1]) >= 64
      invariant t <= |s| && NoLetters(s[t..])
    {
      t := t - 1;
      assert s[t..] == [s[t]] + s[t + 1..];
    }
  }
}
