/** Decoding against encoding: strictly the exact inverse, and tolerantly still an inverse. */
module Base64Theorems {
  import opened Base64Codec
  import Seqs

  // ----- Text with characters that the parse flag lets the decoder ignore -----

  predicate Ignorable(p: Parse, ch: char) {
    match p
    case Strict => false
    case White => Code(ch) == SP
    case Any => Code(ch) == SP || Code(ch) == IL
  }

  function Strip(p: Parse, s: string): string {
    if s == "" then "" else (if Ignorable(p, s[0]) then "" else [s[0]]) + Strip(p, s[1..])
  }

  /** What is left from `pos` on, without the characters to be ignored. */
  function Rest(p: Parse, s: string, pos: nat): string
    requires pos <= |s|
  {
    Strip(p, s[pos..])
  }

  lemma RestStep(p: Parse, s: string, pos: nat)
    requires pos <= |s|
    ensures pos == |s| ==> Rest(p, s, pos) == ""
    ensures pos < |s| && Ignorable(p, s[pos]) ==> Rest(p, s, pos) == Rest(p, s, pos + 1)
    ensures pos < |s| && !Ignorable(p, s[pos]) ==> Rest(p, s, pos) == [s[pos]] + Rest(p, s, pos + 1)
  {
    if pos < |s| {
      assert s[pos..][1..] == s[pos + 1..];
    }
  }

  predicate EndsIgnorably(p: Parse, s: string, pos: nat) {
    pos < |s| && Ignorable(p, s[|s| - 1])
  }

  lemma {:induction false} AllIgnored(p: Parse, s: string, pos: nat)
    requires pos < |s| && Rest(p, s, pos) == ""
    ensures EndsIgnorably(p, s, pos)
    decreases |s| - pos
  {
    RestStep(p, s, pos);
    if pos + 1 < |s| {
      AllIgnored(p, s, pos + 1);
    }
  }

  lemma SkipsIgnorable(f: Flags, s: string, at: Scan)
    requires |at.q| < 4 && at.pos < |s| && Ignorable(f.parse, s[at.pos])
    ensures ScanFrom(f, s, at) == ScanFrom(f, s, at.(pos := at.pos + 1))
  {
  }

  lemma TakesLetter(f: Flags, s: string, at: Scan, w: seq<Sextet>, t: string)
    requires |at.q| < 4 && at.pos < |s| && at.pads == 0 && w != []
    requires !Ignorable(f.parse, s[at.pos]) && Rest(f.parse, s, at.pos) == Letters(w) + t
    ensures var at' := Scan(at.pos + 1, at.q + [w[0]], 0, at.padStart);
      ScanFrom(f, s, at) == ScanFrom(f, s, at') && Rest(f.parse, s, at'.pos) == Letters(w[1..]) + t
  {
    RestStep(f.parse, s, at.pos);
    assert (Letters(w) + t)[0] == Letter(w[0]) && (Letters(w) + t)[1..] == Letters(w[1..]) + t;
    assert s[at.pos] == Letter(w[0]);
    TablesInverse(w[0], s[at.pos]);
  }

  lemma TakesPad(f: Flags, s: string, at: Scan, k: nat)
    requires |at.q| < 4 && at.pos < |s| && !Ignorable(f.parse, s[at.pos]) && Rest(f.parse, s, at.pos) == Equals(k)
    requires !f.pad.PadNo? && |at.q| >= 2 && |at.q| + at.pads + k <= 4
    ensures k > 0
    ensures var at' := Scan(at.pos + 1, at.q, at.pads + 1, if at.pads == 0 then at.pos else at.padStart);
      ScanFrom(f, s, at) == ScanFrom(f, s, at') && Rest(f.parse, s, at'.pos) == Equals(k - 1)
  {
    RestStep(f.parse, s, at.pos);
    assert Equals(k)[0] == '=' && Equals(k)[1..] == Equals(k - 1);
    assert Code(s[at.pos]) == PD && Step(f, PD, at) == Go(Scan(at.pos + 1, at.q, at.pads + 1,
                                                             if at.pads == 0 then at.pos else at.padStart));
  }

  /** A quantum of four letters is taken, and nothing behind its last letter. */
  lemma {:induction false} ScanLetters(f: Flags, s: string, at: Scan, w: seq<Sextet>, t: string)
    requires at.pos <= |s| && at.pads == 0 && |at.q| + |w| == 4 && Rest(f.parse, s, at.pos) == Letters(w) + t
    ensures var end := ScanFrom(f, s, at);
      && end.q == at.q + w && end.pads == 0 && at.pos <= end.pos <= |s| && Rest(f.parse, s, end.pos) == t
      && (w != [] ==> at.pos < end.pos && !Ignorable(f.parse, s[end.pos - 1]))
    decreases |s| - at.pos
  {
    RestStep(f.parse, s, at.pos);
    if w == [] {
      assert Letters(w) + t == t;
    } else if Ignorable(f.parse, s[at.pos]) {
      SkipsIgnorable(f, s, at);
      ScanLetters(f, s, at.(pos := at.pos + 1), w, t);
    } else {
      TakesLetter(f, s, at, w, t);
      Seqs.Assoc(at.q, [w[0]], w[1..]);
      assert w == [w[0]] + w[1..];
      ScanLetters(f, s, Scan(at.pos + 1, at.q + [w[0]], 0, at.padStart), w[1..], t);
    }
  }

  /** The last quantum, with its padding if there is any, takes all the rest. */
  lemma {:induction false} ScanTail(f: Flags, s: string, at: Scan, w: seq<Sextet>, k: nat)
    requires at.pos <= |s| && |at.q| + |w| < 4 && Rest(f.parse, s, at.pos) == Letters(w) + Equals(k)
    requires at.pads > 0 ==> w == []
    requires k > 0 ==> !f.pad.PadNo? && |at.q| + |w| >= 2 && |at.q| + |w| + at.pads + k <= 4
    ensures var end := ScanFrom(f, s, at); end.q == at.q + w && end.pads == at.pads + k && end.pos == |s|
    decreases |s| - at.pos
  {
    RestStep(f.parse, s, at.pos);
    if at.pos < |s| {
      if Ignorable(f.parse, s[at.pos]) {
        SkipsIgnorable(f, s, at);
        ScanTail(f, s, at.(pos := at.pos + 1), w, k);
      } else if w != [] {
        TakesLetter(f, s, at, w, Equals(k));
        Seqs.Assoc(at.q, [w[0]], w[1..]);
        assert w == [w[0]] + w[1..];
        ScanTail(f, s, Scan(at.pos + 1, at.q + [w[0]], 0, at.padStart), w[1..], k);
      } else {
        assert Letters(w) + Equals(k) == Equals(k);
        assert k > 0;
        TakesPad(f, s, at, k);
        assert Letters([]) + Equals(k - 1) == Equals(k - 1);
        ScanTail(f, s, Scan(at.pos + 1, at.q, at.pads + 1, if at.pads == 0 then at.pos else at.padStart), [], k - 1);
      }
    } else {
      assert |Letters(w) + Equals(k)| == |w| + k;
    }
  }

  /** When padding is required, it must be there where it is due, and nothing may follow a last quantum without it. */
  predicate PaddingMet(f: Flags, s: string, pos: nat, x: seq<Octet>, padded: bool) {
    f.pad.PadYes? ==> if |x| % 3 == 0 then !EndsIgnorably(f.parse, s, pos) else padded
  }

  lemma {:induction false} DecodesFrom(f: Flags, s: string, pos: nat, x: seq<Octet>, padded: bool)
    requires pos <= |s| && (padded ==> !f.pad.PadNo?) && Rest(f.parse, s, pos) == EncodeWith(x, padded)
    ensures DecodeFrom(f, s, pos) == Decoded(x, PaddingMet(f, s, pos, x, padded), |s|)
    decreases |s| - pos
  {
    RestStep(f.parse, s, pos);
    if pos == |s| {
      assert x == [];
    } else if |x| >= 3 {
      DecodesGroup(f, s, pos, x, padded);
      DecodesFrom(f, s, ScanFrom(f, s, ScanStart(pos)).pos, x[3..], padded);
      GroupThenRest(f, s, pos, x, padded);
    } else {
      DecodesTail(f, s, pos, x, padded);
    }
  }

  lemma GroupThenRest(f: Flags, s: string, pos: nat, x: seq<Octet>, padded: bool)
    requires pos < |s| && |x| >= 3
    requires var at := ScanFrom(f, s, ScanStart(pos));
      && |at.q| == 4 && Bytes(at.q) == x[..3] && EndPos(at) == at.pos && pos < at.pos <= |s|
      && !Ignorable(f.parse, s[at.pos - 1])
      && DecodeFrom(f, s, at.pos) == Decoded(x[3..], PaddingMet(f, s, at.pos, x[3..], padded), |s|)
    ensures DecodeFrom(f, s, pos) == Decoded(x, PaddingMet(f, s, pos, x, padded), |s|)
  {
    assert x == x[..3] + x[3..];
    assert |x| % 3 == |x[3..]| % 3;
  }

  lemma DecodesGroup(f: Flags, s: string, pos: nat, x: seq<Octet>, padded: bool)
    requires pos < |s| && |x| >= 3 && Rest(f.parse, s, pos) == EncodeWith(x, padded)
    ensures var at := ScanFrom(f, s, ScanStart(pos));
      && |at.q| == 4 && Bytes(at.q) == x[..3] && EndPos(at) == at.pos && pos < at.pos <= |s|
      && Rest(f.parse, s, at.pos) == EncodeWith(x[3..], padded)
      && !Ignorable(f.parse, s[at.pos - 1])
  {
    var w := Sextets(x[0], x[1], x[2]);
    ScanLetters(f, s, ScanStart(pos), w, EncodeWith(x[3..], padded));
    assert [] + w == w && Filled(w) == w;
    OctetsOfSextets(x[0], x[1], x[2]);
    assert x[..3] == [x[0], x[1], x[2]];
  }

  lemma DecodesTail(f: Flags, s: string, pos: nat, x: seq<Octet>, padded: bool)
    requires pos < |s| && |x| < 3 && (padded ==> !f.pad.PadNo?) && Rest(f.parse, s, pos) == EncodeWith(x, padded)
    ensures DecodeFrom(f, s, pos) == Decoded(x, PaddingMet(f, s, pos, x, padded), |s|)
  {
    if x == [] {
      assert Letters([]) + Equals(0) == "";
      ScanTail(f, s, ScanStart(pos), [], 0);
      AllIgnored(f.parse, s, pos);
    } else {
      var b := if |x| == 2 then x[1] else 0;
      var w := Sextets(x[0], b, 0)[..|x| + 1];
      ScanTail(f, s, ScanStart(pos), w, if padded then 3 - |x| else 0);
      assert [] + w == w;
      assert Filled(w) == Sextets(x[0], b, 0);
      OctetsOfSextets(x[0], b, 0);
    }
  }

  /** Whatever the decoder may ignore can be mixed into an encoding: the bytes come back, and all of the text is used.
      The result is success unless padding is required and missing, or required and there is something to be ignored
      behind a last quantum that needs none. */
  lemma TolerantDecoding(f: Flags, s: string, x: seq<Octet>, padded: bool)
    requires Strip(f.parse, s) == EncodeWith(x, padded) && (padded ==> !f.pad.PadNo?)
    ensures Decode(f, s) == Decoded(x, PaddingMet(f, s, 0, x, padded), |s|)
  {
    assert s[0..] == s;
    DecodesFrom(f, s, 0, x, padded);
  }

  /** White space is ignored with DO_PARSE_WHITE, everything but '=' with DO_LAX. */
  lemma WhiteAndLax(s: string, x: seq<Octet>)
    ensures Strip(White, s) == Encode(x) ==> Decode(Flags(White, PadAny, TermBuffer), s) == Decoded(x, true, |s|)
    ensures Strip(Any, s) == Encode(x) ==> Decode(LAX, s) == Decoded(x, true, |s|)
  {
    if Strip(White, s) == Encode(x) {
      TolerantDecoding(Flags(White, PadAny, TermBuffer), s, x, true);
    }
    if Strip(Any, s) == Encode(x) {
      TolerantDecoding(LAX, s, x, true);
    }
  }

  // ----- Strictly -----

  ghost predicate StrictInv(s: string, start: nat, at: Scan) {
    && at.pos == start + |at.q| + at.pads <= |s| && |at.q| + at.pads <= 4 && (at.pads > 0 ==> |at.q| >= 2)
    && s[start..start + |at.q|] == Letters(at.q) && s[start + |at.q|..at.pos] == Equals(at.pads)
  }

  lemma LettersMore(q: seq<Sextet>, v: Sextet)
    ensures Letters(q + [v]) == Letters(q) + [Letter(v)]
  {
    var more := Letters(q + [v]);
    forall i | 0 <= i < |q|
      ensures more[i] == Letters(q)[i]
    {
      assert (q + [v])[i] == q[i];
    }
    assert (q + [v])[|q|] == v && more[|q|] == Letter(v);
  }

  lemma {:induction false} StrictScan(s: string, start: nat, at: Scan)
    requires StrictInv(s, start, at)
    ensures StrictInv(s, start, ScanFrom(STRICT, s, at))
    decreases |s| - at.pos
  {
    if |at.q| < 4 && at.pos < |s| {
      var code := Code(s[at.pos]);
      match Step(STRICT, code, at)
      case Stop =>
      case Go(at') =>
        if code < 64 {
          TablesInverse(code, s[at.pos]);
          assert s[start..start + |at.q| + 1] == s[start..start + |at.q|] + [s[at.pos]];
          LettersMore(at.q, code);
        } else {
          TablesInverse(0, s[at.pos]);
          assert s[start + |at.q|..at.pos + 1] == s[start + |at.q|..at.pos] + [s[at.pos]];
        }
        StrictScan(s, start, at');
    }
  }

  lemma StrictQuantum(s: string, pos: nat)
    requires pos <= |s|
    ensures StrictInv(s, pos, ScanFrom(STRICT, s, ScanStart(pos)))
  {
    assert s[pos..pos] == Letters([]) == Equals(0);
    StrictScan(s, pos, ScanStart(pos));
  }

  lemma {:induction false} StrictIsCanonical(s: string, pos: nat)
    requires pos <= |s| && DecodeFrom(STRICT, s, pos).success
    ensures var d := DecodeFrom(STRICT, s, pos); s[pos..] == Encode(d.bytes) && d.used == |s|
    decreases |s| - pos
  {
    if pos < |s| {
      var at := ScanFrom(STRICT, s, ScanStart(pos));
      StrictQuantum(s, pos);
      SextetsOfOctets(Filled(at.q));
      var x := Octets(Filled(at.q));
      if |at.q| == 4 {
        assert Filled(at.q) == at.q && Bytes(at.q) == x;
        StrictIsCanonical(s, at.pos);
        var rest := DecodeFrom(STRICT, s, at.pos).bytes;
        assert (x + rest)[3..] == rest;
        assert s[pos..] == s[pos..at.pos] + s[at.pos..];
      } else {
        StrictTail(s, pos, at);
      }
    }
  }

  /** In the last quantum the pads are there, and the unused bits are zero. */
  lemma StrictTail(s: string, pos: nat, at: Scan)
    requires StrictInv(s, pos, at) && |at.q| < 4 && Padded(at) && LeftOver(at.q) == 0 && at.pos == |s|
    ensures s[pos..] == Encode(Bytes(at.q))
  {
    var x, q := Octets(Filled(at.q)), at.q;
    SextetsOfOctets(Filled(q));
    assert s[pos..] == s[pos..pos + |q|] + s[pos + |q|..at.pos];
    assert Sextets(x[0], if |q| == 3 then x[1] else 0, 0)[..|q|] == q;
  }

  /** Strict decoding succeeds exactly on the encodings, with what was encoded, and uses all of the text. */
  lemma StrictIsInverse(s: string, x: seq<Octet>)
    ensures s == Encode(x) <==> Decode(STRICT, s).success && Decode(STRICT, s).bytes == x
    ensures s == Encode(x) ==> Decode(STRICT, s) == Decoded(x, true, |s|)
  {
    assert s[0..] == s;
    if s == Encode(x) {
      StripStrict(s);
      TolerantDecoding(STRICT, s, x, true);
    }
    if Decode(STRICT, s).success {
      StrictIsCanonical(s, 0);
    }
  }

  lemma {:induction false} StripStrict(s: string)
    ensures Strip(Strict, s) == s
  {
    if s != "" {
      StripStrict(s[1..]);
    }
  }

  lemma StrictIffEncoding(s: string)
    ensures Decode(STRICT, s).success <==> exists x :: s == Encode(x)
  {
    if Decode(STRICT, s).success {
      StrictIsInverse(s, Decode(STRICT, s).bytes);
    }
    forall x | s == Encode(x)
      ensures Decode(STRICT, s).success
    {
      StrictIsInverse(s, x);
    }
  }

  // ----- What success means when only white space is ignored -----

  /** What has been scanned from `start` on is the groups found and the pads after them. */
  ghost predicate Scanned(f: Flags, s: string, start: nat, at: Scan) {
    && start <= at.pos <= |s| && |at.q| + at.pads <= 4 && (at.pads > 0 ==> |at.q| >= 2 && !f.pad.PadNo?)
    && Rest(f.parse, s, start) == Letters(at.q) + Equals(at.pads) + Rest(f.parse, s, at.pos)
  }

  lemma ScansLetter(f: Flags, s: string, start: nat, at: Scan)
    requires Scanned(f, s, start, at) && at.pos < |s| && |at.q| < 4 && at.pads == 0 && Code(s[at.pos]) < 64
    ensures Scanned(f, s, start, Scan(at.pos + 1, at.q + [Code(s[at.pos])], 0, at.padStart))
  {
    var code := Code(s[at.pos]);
    TablesInverse(code, s[at.pos]);
    RestStep(f.parse, s, at.pos);
    var rest := Rest(f.parse, s, at.pos + 1);
    LettersMore(at.q, code);
    assert Letters(at.q) + Equals(0) == Letters(at.q) && Letters(at.q + [code]) + Equals(0) == Letters(at.q + [code]);
    Seqs.Assoc(Letters(at.q), [s[at.pos]], rest);
  }

  lemma ScansPad(f: Flags, s: string, start: nat, at: Scan, padStart: nat)
    requires Scanned(f, s, start, at) && at.pos < |s| && Code(s[at.pos]) == PD
    requires 2 <= |at.q| && |at.q| + at.pads < 4 && !f.pad.PadNo?
    ensures Scanned(f, s, start, Scan(at.pos + 1, at.q, at.pads + 1, padStart))
  {
    TablesInverse(0, s[at.pos]);
    RestStep(f.parse, s, at.pos);
    var rest := Rest(f.parse, s, at.pos + 1);
    assert Equals(at.pads + 1) == Equals(at.pads) + [s[at.pos]];
    Seqs.Assoc(Letters(at.q), Equals(at.pads), [s[at.pos]]);
    Seqs.Assoc(Letters(at.q) + Equals(at.pads), [s[at.pos]], rest);
  }

  lemma {:induction false} ScanIsScanned(f: Flags, s: string, start: nat, at: Scan)
    requires !f.parse.Any? && Scanned(f, s, start, at)
    ensures Scanned(f, s, start, ScanFrom(f, s, at))
    decreases |s| - at.pos
  {
    if |at.q| < 4 && at.pos < |s| {
      var code := Code(s[at.pos]);
      match Step(f, code, at)
      case Stop =>
      case Go(at') =>
        if code < 64 {
          ScansLetter(f, s, start, at);
        } else if code == PD {
          ScansPad(f, s, start, at, at'.padStart);
        } else {
          RestStep(f.parse, s, at.pos);
        }
        ScanIsScanned(f, s, start, at');
    }
  }

  lemma QuantumIsScanned(f: Flags, s: string, pos: nat)
    requires !f.parse.Any? && pos <= |s|
    ensures Scanned(f, s, pos, ScanFrom(f, s, ScanStart(pos)))
  {
    assert Letters([]) + Equals(0) == "" && "" + Rest(f.parse, s, pos) == Rest(f.parse, s, pos);
    ScanIsScanned(f, s, pos, ScanStart(pos));
  }

  /** An encoding, or whole groups of it and a single 'A' behind them, which stands for no byte. */
  ghost predicate IsCode(f: Flags, text: string, x: seq<Octet>, padded: bool, dangling: string) {
    && text == EncodeWith(x, padded) + dangling && (padded ==> !f.pad.PadNo?)
    && (dangling == "" || (dangling == "A" && |x| % 3 == 0 && !f.pad.PadYes?))
  }

  /** The last quantum of a text that decodes with success. */
  lemma TailIsCode(f: Flags, q: seq<Sextet>, pads: nat) returns (padded: bool, dangling: string)
    requires |q| < 4 && LeftOver(q) == 0 && (pads > 0 ==> |q| + pads == 4 && |q| >= 2 && !f.pad.PadNo?)
    requires f.pad.PadYes? ==> |q| + pads == 4
    ensures IsCode(f, Letters(q) + Equals(pads), Bytes(q), padded, dangling)
  {
    padded, dangling := pads > 0, "";
    var x := Octets(Filled(q));
    SextetsOfOctets(Filled(q));
    if |q| == 0 {
      assert Letters(q) + Equals(0) == "" == EncodeWith([], false) + "";
    } else if |q| == 1 {
      dangling := "A";
      assert q[0] == 0 && Letters(q) == "A";
      assert Letters(q) + Equals(0) == "A" == EncodeWith([], false) + "A";
    } else {
      assert Sextets(x[0], if |q| == 3 then x[1] else 0, 0)[..|q|] == q;
      assert EncodeWith(Bytes(q), padded) == Letters(q) + Equals(pads);
      assert EncodeWith(Bytes(q), padded) + "" == EncodeWith(Bytes(q), padded);
    }
  }

  lemma GroupIsCode(f: Flags, q: seq<Sextet>, rest: string, x: seq<Octet>, padded: bool, dangling: string)
    requires |q| == 4 && IsCode(f, rest, x, padded, dangling)
    ensures IsCode(f, Letters(q) + Equals(0) + rest, Bytes(q) + x, padded, dangling)
  {
    var y := Octets(q);
    assert Filled(q) == q && Bytes(q) == y && (y + x)[3..] == x;
    SextetsOfOctets(q);
    assert Letters(q) + Equals(0) == Letters(q);
    Seqs.Assoc(Letters(q), EncodeWith(x, padded), dangling);
  }

  /** Where only white space is ignored and the whole text must be used, success means that the text is a code. */
  lemma {:induction false} SuccessIsCode(f: Flags, s: string, pos: nat) returns (padded: bool, dangling: string)
    requires !f.parse.Any? && f.term.TermBuffer? && pos <= |s| && DecodeFrom(f, s, pos).success
    ensures IsCode(f, Rest(f.parse, s, pos), DecodeFrom(f, s, pos).bytes, padded, dangling)
    decreases |s| - pos
  {
    RestStep(f.parse, s, pos);
    if pos == |s| {
      padded, dangling := false, "";
      assert EncodeWith([], false) + "" == "";
    } else {
      var at := ScanFrom(f, s, ScanStart(pos));
      QuantumIsScanned(f, s, pos);
      QuantumInBounds(f, s, pos);
      RestStep(f.parse, s, at.pos);
      if |at.q| == 4 {
        padded, dangling := SuccessIsCode(f, s, at.pos);
        GroupIsCode(f, at.q, Rest(f.parse, s, at.pos), DecodeFrom(f, s, at.pos).bytes, padded, dangling);
      } else {
        ScanKeeps(f, s, ScanStart(pos), pos);
        padded, dangling := TailIsCode(f, at.q, at.pads);
        assert Letters(at.q) + Equals(at.pads) + "" == Letters(at.q) + Equals(at.pads);
      }
    }
  }

  /** A single 'A' that is left stands for no byte. */
  lemma DanglingTail(f: Flags, s: string, pos: nat)
    requires !f.pad.PadYes? && pos < |s| && Rest(f.parse, s, pos) == "A"
    ensures DecodeFrom(f, s, pos) == Decoded([], true, |s|)
  {
    assert Letters([0]) + Equals(0) == "A";
    ScanTail(f, s, ScanStart(pos), [0], 0);
    assert [] + [0] == [0] && LeftOver([0]) == 0 && Bytes([0]) == [];
  }

  /** Four letters are decoded, and what is left after them. */
  lemma GroupDecodes(f: Flags, s: string, pos: nat, a: Octet, b: Octet, c: Octet, t: string) returns (end: nat)
    requires pos < |s| && Rest(f.parse, s, pos) == Letters(Sextets(a, b, c)) + t
    ensures pos < end <= |s| && Rest(f.parse, s, end) == t
    ensures var rest := DecodeFrom(f, s, end); DecodeFrom(f, s, pos) == rest.(bytes := [a, b, c] + rest.bytes)
  {
    var w := Sextets(a, b, c);
    ScanLetters(f, s, ScanStart(pos), w, t);
    end := ScanFrom(f, s, ScanStart(pos)).pos;
    assert [] + w == w && Filled(w) == w;
    OctetsOfSextets(a, b, c);
  }

  /** Whole groups and a single 'A' decode to the groups. */
  lemma {:induction false} DanglingDecodes(f: Flags, s: string, pos: nat, x: seq<Octet>, groups: nat)
    requires !f.pad.PadYes? && pos <= |s| && |x| == 3 * groups && Rest(f.parse, s, pos) == EncodeWith(x, false) + "A"
    ensures DecodeFrom(f, s, pos) == Decoded(x, true, |s|)
    decreases groups
  {
    RestStep(f.parse, s, pos);
    if groups == 0 {
      assert EncodeWith(x, false) + "A" == "A";
      DanglingTail(f, s, pos);
    } else {
      CodeBegins(x);
      var end := GroupDecodes(f, s, pos, x[0], x[1], x[2], EncodeWith(x[3..], false) + "A");
      DanglingDecodes(f, s, end, x[3..], groups - 1);
      assert [x[0], x[1], x[2]] + x[3..] == x;
    }
  }

  lemma CodeBegins(x: seq<Octet>)
    requires |x| >= 3
    ensures EncodeWith(x, false) + "A" == Letters(Sextets(x[0], x[1], x[2])) + (EncodeWith(x[3..], false) + "A")
  {
    Seqs.Assoc(Letters(Sextets(x[0], x[1], x[2])), EncodeWith(x[3..], false), "A");
  }

  /** The text is an encoding of `x`, but for what is ignored, and the padding is as the flags want it. */
  ghost predicate Encodes(f: Flags, s: string, x: seq<Octet>, padded: bool) {
    && Strip(f.parse, s) == EncodeWith(x, padded) && (padded ==> !f.pad.PadNo?)
    && PaddingMet(f, s, 0, x, padded)
  }

  /** The text is whole groups and a single 'A'. */
  ghost predicate Dangles(f: Flags, s: string, x: seq<Octet>) {
    !f.pad.PadYes? && |x| % 3 == 0 && Strip(f.parse, s) == EncodeWith(x, false) + "A"
  }

  /** When decoding succeeds where at most white space is ignored and the whole text must be used: the text without
      white space is an encoding, and the padding is as the flags want it; or, unless padding is required, whole groups
      of four with a single 'A' behind them. */
  lemma SuccessExactly(f: Flags, s: string)
    requires !f.parse.Any? && f.term.TermBuffer?
    ensures Decode(f, s).success <==>
      (exists x, padded :: Encodes(f, s, x, padded)) || (exists x :: Dangles(f, s, x))
  {
    if Decode(f, s).success {
      SuccessOnlyIf(f, s);
    }
    forall x, padded | Encodes(f, s, x, padded)
      ensures Decode(f, s).success
    {
      TolerantDecoding(f, s, x, padded);
    }
    forall x | Dangles(f, s, x)
      ensures Decode(f, s).success
    {
      assert s[0..] == s;
      DanglingDecodes(f, s, 0, x, |x| / 3);
    }
  }

  lemma SuccessOnlyIf(f: Flags, s: string)
    requires !f.parse.Any? && f.term.TermBuffer? && Decode(f, s).success
    ensures (exists padded :: Encodes(f, s, Decode(f, s).bytes, padded)) || Dangles(f, s, Decode(f, s).bytes)
  {
    assert s[0..] == s;
    var x := Decode(f, s).bytes;
    var padded, dangling := SuccessIsCode(f, s, 0);
    if dangling == "" {
      assert EncodeWith(x, padded) + "" == EncodeWith(x, padded);
      TolerantDecoding(f, s, x, padded);
      assert Encodes(f, s, x, padded);
    } else {
      assert padded ==> EncodeWith(x, true) == EncodeWith(x, false) by { WholeGroups(x); }
      assert Dangles(f, s, x);
    }
  }

  lemma {:induction false} WholeGroups(x: seq<Octet>)
    requires |x| % 3 == 0
    ensures EncodeWith(x, true) == EncodeWith(x, false)
  {
    if x != [] {
      WholeGroups(x[3..]);
    }
  }

  lemma {:induction false} NoWhite(x: seq<Octet>, padded: bool)
    ensures forall ch | ch in EncodeWith(x, padded) :: Code(ch) != SP
  {
    if |x| >= 3 {
      NoWhite(x[3..], padded);
    }
    forall q: seq<Sextet>, ch | ch in Letters(q)
      ensures Code(ch) != SP
    {
      var i :| 0 <= i < |q| && Letters(q)[i] == ch;
      TablesInverse(q[i], ch);
    }
  }

  lemma StripOneSpace()
    ensures Strip(White, " ") == ""
  {
    var s := " ";
    assert s[0] == ' ' && Code(' ') == SP && s[1..] == "";
    assert Strip(White, s) == "" + Strip(White, s[1..]);
  }

  lemma {:induction false} StripNothing(s: string)
    requires forall ch | ch in s :: Code(ch) != SP
    ensures Strip(White, s) == s && Strip(White, s + " ") == s
  {
    if s == "" {
      assert s + " " == " ";
      StripOneSpace();
    } else {
      StripNothing(s[1..]);
      assert (s + " ")[1..] == s[1..] + " " && (s + " ")[0] == s[0];
      assert [s[0]] + s[1..] == s;
    }
  }

  lemma SpaceInFront(x: seq<Octet>)
    requires x != [] && |x| % 3 == 0
    ensures Strip(White, " " + Encode(x)) == Encode(x) && !EndsIgnorably(White, " " + Encode(x), 0)
  {
    NoWhite(x, true);
    StripNothing(Encode(x));
    StripSpace(Encode(x));
    assert Encode(x)[|Encode(x)| - 1] in Encode(x);
    LastIsLast(Encode(x));
  }

  lemma StripSpace(s: string)
    ensures Strip(White, " " + s) == Strip(White, s)
  {
    assert (" " + s)[1..] == s && (" " + s)[0] == ' ';
    assert "" + Strip(White, s) == Strip(White, s);
  }

  lemma LastIsLast(s: string)
    requires s != "" && Code(s[|s| - 1]) != SP
    ensures !EndsIgnorably(White, " " + s, 0)
  {
    assert (" " + s)[|s|] == s[|s| - 1];
  }

  lemma SpaceBehind(x: seq<Octet>)
    ensures var s := Encode(x) + " ";
      Strip(White, s) == Encode(x) && EndsIgnorably(White, s, 0)
  {
    NoWhite(x, true);
    StripNothing(Encode(x));
  }

  /** With padding required, a space in front of whole groups is ignored, and a space behind them is an error: the bytes
      come back, but not with success. */
  lemma WhiteBehindFails(x: seq<Octet>)
    requires x != [] && |x| % 3 == 0
    ensures Decode(Flags(White, PadYes, TermBuffer), " " + Encode(x)) == Decoded(x, true, |" " + Encode(x)|)
    ensures Decode(Flags(White, PadYes, TermBuffer), Encode(x) + " ") == Decoded(x, false, |Encode(x) + " "|)
  {
    SpaceInFront(x);
    SpaceBehind(x);
    TolerantDecoding(Flags(White, PadYes, TermBuffer), " " + Encode(x), x, true);
    TolerantDecoding(Flags(White, PadYes, TermBuffer), Encode(x) + " ", x, true);
  }

  /** A single 'A' is no encoding of anything, and decodes to nothing with success when padding is not required. */
  lemma SingleADecodes()
    ensures Decode(Flags(Strict, PadAny, TermBuffer), "A") == Decoded([], true, 1)
    ensures forall x, padded :: EncodeWith(x, padded) != "A"
  {
    assert "A"[0..] == "A" && EncodeWith([], false) + "A" == "A";
    StripStrict("A");
    DanglingDecodes(Flags(Strict, PadAny, TermBuffer), "A", 0, [], 0);
    forall x, padded
      ensures EncodeWith(x, padded) != "A"
    {
      assert x != [] ==> |EncodeWith(x, padded)| >= 2;
    }
  }
}
