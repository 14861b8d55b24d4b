/** Lines with white space around what they say, and the numbers that strtoul reads from them. */
module LineText {
  import opened CText
  import opened ChunkedCoding

  // ----- White space -----

  predicate OneLine(s: string) {
    forall i | 0 <= i < |s| :: s[i] != '\n'
  }

  predicate Blank(s: string) {
    forall i | 0 <= i < |s| :: IsSpace(s[i])
  }

  /** TrimEnd takes off exactly the white space behind. */
  lemma {:induction false} TrimEndIs(line: string)
    ensures TrimEnd(line) <= line && Blank(line[|TrimEnd(line)|..])
    ensures TrimEnd(line) != "" ==> !IsSpace(TrimEnd(line)[|TrimEnd(line)| - 1])
  {
    if line != "" && IsSpace(line[|line| - 1]) {
      var init, n := line[..|line| - 1], |TrimEnd(line)|;
      TrimEndIs(init);
      assert line[n..] == init[n..] + [line[|line| - 1]];
    }
  }

  lemma {:induction false} TrimEndOf(text: string, white: string)
    requires Blank(white) && (text != "" ==> !IsSpace(text[|text| - 1]))
    ensures TrimEnd(text + white) == text
  {
    if white == "" {
      assert text + white == text;
    } else {
      var init, last := white[..|white| - 1], white[|white| - 1];
      TrimEndOf(text, init);
      TrimEndMore(text + init, last);
      assert text + white == text + init + [last];
    }
  }

  lemma BlankTrimmed(line: string)
    ensures TrimEnd(line) == "" <==> Blank(line)
  {
    TrimEndIs(line);
    if TrimEnd(line) != "" {
      assert TrimEnd(line)[|TrimEnd(line)| - 1] == line[|TrimEnd(line)| - 1];
    }
  }

  lemma {:induction false} SkipsWhite(s: string, i: nat, n: nat)
    requires i <= n <= |s| && Blank(s[i..n]) && (n < |s| ==> !IsSpace(s[n]))
    ensures SkipSpace(s, i) == n
    decreases n - i
  {
    if i < n {
      assert IsSpace(s[i..n][0]);
      assert s[i + 1..n] == s[i..n][1..];
      SkipsWhite(s, i + 1, n);
    }
  }

  lemma {:induction false} SkippedIsWhite(s: string, i: nat)
    requires i <= |s|
    ensures var n := SkipSpace(s, i); Blank(s[i..n]) && (n < |s| ==> !IsSpace(s[n]))
    decreases |s| - i
  {
    if i < |s| && IsSpace(s[i]) {
      SkippedIsWhite(s, i + 1);
      assert s[i..SkipSpace(s, i)] == [s[i]] + s[i + 1..SkipSpace(s, i)];
    }
  }

  // ----- What a size line says -----

  /** The digits are those of hexadecimal numbers, in both cases. */
  lemma HexIs(ch: char)
    ensures IsHex(ch) <==> ch in "0123456789" || ch in "abcdef" || ch in "ABCDEF"
    ensures forall i | 0 <= i < 10 && ch == "0123456789"[i] :: HexValue(ch) == i
    ensures forall i | 0 <= i < 6 && (ch == "abcdef"[i] || ch == "ABCDEF"[i]) :: HexValue(ch) == 10 + i
  {
    if '0' <= ch <= '9' {
      assert ch == "0123456789"[ch as nat - '0' as nat];
    } else if 'a' <= ch <= 'f' {
      assert ch == "abcdef"[ch as nat - 'a' as nat];
    } else if 'A' <= ch <= 'F' {
      assert ch == "ABCDEF"[ch as nat - 'A' as nat];
    }
  }

  predicate AllHex(s: string) {
    forall i | 0 <= i < |s| :: IsHex(s[i])
  }

  function HexNumber(digits: string): nat
    requires AllHex(digits)
  {
    if digits == "" then 0 else 16 * HexNumber(digits[..|digits| - 1]) + HexValue(digits[|digits| - 1])
  }

  /** How strtoul lets a number be written, with white space behind it. */
  datatype Spelling = Spelling(white: string, sign: string, prefix: string, digits: string, after: string)

  function Text(p: Spelling): string {
    p.white + p.sign + p.prefix + p.digits
  }

  predicate IsSpelling(p: Spelling) {
    && Blank(p.white) && (p.sign == "" || p.sign == "+" || p.sign == "-")
    && (p.prefix == "" || p.prefix == "0x" || p.prefix == "0X")
    && p.digits != "" && AllHex(p.digits) && Blank(p.after)
  }

  /** Large numbers are cut to the largest, and a sign negates as unsigned arithmetic does. */
  function Meaning(p: Spelling): nat
    requires IsSpelling(p)
  {
    var v := HexNumber(p.digits);
    if v > SIZE_MAX then SIZE_MAX else if p.sign == "-" && v != 0 then SIZE_MAX + 1 - v else v
  }

  ghost predicate Says(line: string, n: nat) {
    exists p :: IsSpelling(p) && line == Text(p) + p.after && n == Meaning(p)
  }

  lemma HexNumberMore(s: string, i: nat, j: nat)
    requires i < j <= |s| && AllHex(s[i..j])
    ensures AllHex(s[i..j - 1]) && IsHex(s[j - 1])
    ensures HexNumber(s[i..j]) == 16 * HexNumber(s[i..j - 1]) + HexValue(s[j - 1])
  {
    var digits := s[i..j];
    assert digits[..|digits| - 1] == s[i..j - 1] && digits[|digits| - 1] == s[j - 1];
  }

  lemma {:induction false} HexDigitsTo(s: string, i: nat, j: nat)
    requires i <= j <= |s| && AllHex(s[i..j])
    ensures HexDigits(s, i, 0) == HexDigits(s, j, HexNumber(s[i..j]))
    decreases j
  {
    if i < j {
      HexNumberMore(s, i, j);
      HexDigitsTo(s, i, j - 1);
    } else {
      assert s[i..j] == "";
    }
  }

  lemma {:induction false} HexDigitsEnd(s: string, i: nat, v: nat)
    requires i <= |s|
    ensures AllHex(s[i..HexDigits(s, i, v).1])
    decreases |s| - i
  {
    if i < |s| && IsHex(s[i]) {
      HexDigitsEnd(s, i + 1, v * 16 + HexValue(s[i]));
      var end := HexDigits(s, i, v).1;
      assert s[i..end] == [s[i]] + s[i + 1..end];
    }
  }

  /** Where the parts of a spelling end. */
  lemma PartsOfText(p: Spelling)
    requires IsSpelling(p)
    ensures var s, i := Text(p), |p.white|; var j := i + |p.sign|; var k := j + |p.prefix|;
      s[0..i] == p.white && s[i..j] == p.sign && s[j..k] == p.prefix && s[k..|s|] == p.digits
  {
  }

  lemma DigitIsDigit(p: Spelling)
    requires IsSpelling(p)
    ensures var s, k := Text(p), |p.white| + |p.sign| + |p.prefix|;
      k < |s| && IsHex(s[k]) && (k + 1 < |s| ==> IsHex(s[k + 1]))
  {
    var s, k := Text(p), |p.white| + |p.sign| + |p.prefix|;
    assert s[k] == p.digits[0] && (k + 1 < |s| ==> s[k + 1] == p.digits[1]);
  }

  lemma WhiteIsSkipped(p: Spelling)
    requires IsSpelling(p)
    ensures SkipSpace(Text(p), 0) == |p.white|
  {
    var s, i := Text(p), |p.white|;
    PartsOfText(p);
    DigitIsDigit(p);
    assert p.sign != "" ==> s[i] == p.sign[0];
    assert p.prefix != "" ==> s[i + |p.sign|] == p.prefix[0];
    SkipsWhite(s, 0, i);
  }

  lemma SignIsSkipped(p: Spelling)
    requires IsSpelling(p)
    ensures SkipSign(Text(p), |p.white|) == |p.white| + |p.sign|
  {
    var s, i := Text(p), |p.white|;
    DigitIsDigit(p);
    if p.sign != "" {
      assert s[i] == p.sign[0];
    } else if p.prefix != "" {
      assert s[i] == p.prefix[0];
    }
  }

  lemma NoPrefix(s: string, j: nat)
    requires j < |s| && (j + 1 < |s| ==> IsHex(s[j + 1]))
    ensures SkipPrefix(s, j) == j
  {
  }

  lemma WithPrefix(p: Spelling)
    requires IsSpelling(p) && p.prefix != ""
    ensures var s, j := Text(p), |p.white| + |p.sign|;
      |p.prefix| == 2 && j + 1 < |s| && s[j] == '0' && (s[j + 1] == 'x' || s[j + 1] == 'X')
  {
    var s, j := Text(p), |p.white| + |p.sign|;
    assert p.prefix[0] == '0' && (p.prefix[1] == 'x' || p.prefix[1] == 'X');
    assert s[j] == p.prefix[0] && s[j + 1] == p.prefix[1];
  }

  lemma PrefixIsSkipped(p: Spelling)
    requires IsSpelling(p)
    ensures SkipPrefix(Text(p), |p.white| + |p.sign|) == |p.white| + |p.sign| + |p.prefix|
  {
    DigitIsDigit(p);
    if p.prefix == "" {
      NoPrefix(Text(p), |p.white| + |p.sign|);
    } else {
      WithPrefix(p);
    }
  }

  lemma StrToUlAt(s: string, i: nat, j: nat, k: nat, v: nat)
    requires i <= j <= k < |s| && SkipSpace(s, 0) == i && SkipSign(s, i) == j && SkipPrefix(s, j) == k
    requires HexDigits(s, k, 0) == (v, |s|)
    ensures StrToUl16(s) ==
      (if v > SIZE_MAX then SIZE_MAX else if j > i && s[i] == '-' && v != 0 then SIZE_MAX + 1 - v else v, |s|)
  {
  }

  lemma DigitsAreRead(p: Spelling)
    requires IsSpelling(p)
    ensures HexDigits(Text(p), |p.white| + |p.sign| + |p.prefix|, 0) == (HexNumber(p.digits), |Text(p)|)
  {
    PartsOfText(p);
    HexDigitsTo(Text(p), |p.white| + |p.sign| + |p.prefix|, |Text(p)|);
  }

  lemma SignIsThere(p: Spelling)
    ensures p.sign != "" ==> Text(p)[|p.white|] == p.sign[0]
  {
  }

  /** A spelling is read as what it means. */
  lemma SpellingIsRead(p: Spelling)
    requires IsSpelling(p)
    ensures StrToUl16(Text(p)) == (Meaning(p), |Text(p)|)
  {
    var i, j := |p.white|, |p.white| + |p.sign|;
    WhiteIsSkipped(p);
    SignIsSkipped(p);
    PrefixIsSkipped(p);
    DigitIsDigit(p);
    DigitsAreRead(p);
    SignIsThere(p);
    StrToUlAt(Text(p), i, j, j + |p.prefix|, HexNumber(p.digits));
  }

  function SpellingOf(s: string, after: string): Spelling {
    var i := SkipSpace(s, 0);
    var j := SkipSign(s, i);
    var k := SkipPrefix(s, j);
    Spelling(s[..i], s[i..j], s[j..k], s[k..], after)
  }

  lemma SignAndPrefix(s: string, i: nat)
    requires i <= |s|
    ensures var sign := s[i..SkipSign(s, i)]; sign == "" || sign == "+" || sign == "-"
    ensures var prefix := s[i..SkipPrefix(s, i)]; prefix == "" || prefix == "0x" || prefix == "0X"
  {
  }

  lemma AllRead(s: string)
    requires s != "" && StrToUl16(s).1 == |s|
    ensures var k := SkipPrefix(s, SkipSign(s, SkipSpace(s, 0))); k < |s| && HexDigits(s, k, 0).1 == |s|
  {
  }

  lemma DigitsBehind(s: string, k: nat)
    requires k <= |s| && HexDigits(s, k, 0).1 == |s|
    ensures AllHex(s[k..])
  {
    HexDigitsEnd(s, k, 0);
    assert s[k..|s|] == s[k..];
  }

  lemma WhiteInFront(s: string)
    ensures Blank(s[..SkipSpace(s, 0)])
  {
    SkippedIsWhite(s, 0);
    assert s[0..SkipSpace(s, 0)] == s[..SkipSpace(s, 0)];
  }

  lemma FourParts(s: string, i: nat, j: nat, k: nat)
    requires i <= j <= k <= |s|
    ensures s[..i] + s[i..j] + s[j..k] + s[k..] == s
  {
  }

  lemma ReadIsSpelling(s: string, after: string)
    requires s != "" && StrToUl16(s).1 == |s| && Blank(after)
    ensures IsSpelling(SpellingOf(s, after)) && Text(SpellingOf(s, after)) == s
  {
    var i := SkipSpace(s, 0);
    var j := SkipSign(s, i);
    var k := SkipPrefix(s, j);
    AllRead(s);
    WhiteInFront(s);
    SignAndPrefix(s, i);
    SignAndPrefix(s, j);
    DigitsBehind(s, k);
    FourParts(s, i, j, k);
  }

  lemma SaidBy(line: string, p: Spelling, n: nat)
    requires IsSpelling(p) && line == Text(p) + p.after && n == Meaning(p)
    ensures Says(line, n)
  {
  }

  lemma ReadIsSaid(s: string, after: string, n: nat)
    requires s != "" && StrToUl16(s) == (n, |s|) && Blank(after)
    ensures Says(s + after, n)
  {
    var p := SpellingOf(s, after);
    assert Text(p) == s && IsSpelling(p) && p.after == after by {
      ReadIsSpelling(s, after);
    }
    assert Meaning(p) == n by {
      SpellingIsRead(p);
    }
    SaidBy(s + after, p, n);
  }

  lemma LastIsDigit(p: Spelling)
    requires IsSpelling(p)
    ensures Text(p) != "" && !IsSpace(Text(p)[|Text(p)| - 1])
  {
    assert Text(p)[|Text(p)| - 1] == p.digits[|p.digits| - 1];
  }

  lemma SpellingTrimmed(p: Spelling)
    requires IsSpelling(p)
    ensures TrimEnd(Text(p) + p.after) == Text(p) != ""
    ensures StrToUl16(Text(p)) == (Meaning(p), |Text(p)|)
  {
    LastIsDigit(p);
    TrimEndOf(Text(p), p.after);
    SpellingIsRead(p);
  }

  /** What strtoul makes of a line without the white space behind it, and that it uses all of it, is what the line
      says. */
  lemma SizeLine(line: string, n: nat)
    ensures Says(line, n) <==> TrimEnd(line) != "" && StrToUl16(TrimEnd(line)) == (n, |TrimEnd(line)|)
  {
    if TrimEnd(line) != "" && StrToUl16(TrimEnd(line)) == (n, |TrimEnd(line)|) {
      TrimEndIs(line);
      ReadIsSaid(TrimEnd(line), line[|TrimEnd(line)|..], n);
    }
    if Says(line, n) {
      var p :| IsSpelling(p) && line == Text(p) + p.after && n == Meaning(p);
      SpellingTrimmed(p);
    }
  }
}
