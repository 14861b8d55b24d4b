/** What the code looks like, character by character, and that it may be broken into lines. */
module Base64Lines {
  import Base64
  import opened Base64Codec
  import opened Base64Theorems
  import opened Seqs

  // ----- The two tables, by their characters -----

  /** The characters of section 4 of RFC 4648 in rows of eight. */
  const ALPHABET: seq<string> :=
    ["ABCDEFGH", "IJKLMNOP", "QRSTUVWX", "YZabcdef",
     "ghijklmn", "opqrstuv", "wxyz0123", "456789+/"]

  /** Tab, line feed, vertical tab, form feed, carriage return and space. */
  const WHITE_SPACE: string := "\t\n\U{0B}\U{0C}\r "

  function CharacterOf(v: Sextet): char {
    RowsOfEight();
    ALPHABET[v / 8][v % 8]
  }

  lemma RowsOfEight()
    ensures |ALPHABET| == 8 && forall r | 0 <= r < 8 :: |ALPHABET[r]| == 8
  {
  }

  lemma LetterIs(v: Sextet)
    ensures Letter(v) == CharacterOf(v)
  {
    var row, c := ALPHABET[v / 8], v % 8;
    assert v == 8 * (v / 8) + c;
  }

  lemma WhiteIs(ch: char)
    ensures Code(ch) == SP <==> ch in WHITE_SPACE
    ensures Code(ch) == PD <==> ch == '='
  {
    assert WHITE_SPACE[0] == '\t' && WHITE_SPACE[1] == '\n' && WHITE_SPACE[2] == '\U{0B}';
    assert WHITE_SPACE[3] == '\U{0C}' && WHITE_SPACE[4] == '\r' && WHITE_SPACE[5] == ' ';
  }

  /** The encode table is the alphabet; the decode table has its numbers, the pad, the white space, and nothing else. */
  lemma TablesAre(v: Sextet, ch: char)
    ensures Letter(v) == CharacterOf(v)
    ensures Code(ch) == v <==> ch == CharacterOf(v)
    ensures Code(ch) == SP <==> ch in WHITE_SPACE
    ensures Code(ch) == PD <==> ch == '='
    ensures Code(ch) == IL <==> ch !in WHITE_SPACE && ch != '=' && forall w: Sextet :: ch != CharacterOf(w)
  {
    LetterIs(v);
    WhiteIs(ch);
    TablesInverse(v, ch);
    forall w: Sextet
      ensures Letter(w) == CharacterOf(w) && Code(Letter(w)) == w
    {
      LetterIs(w);
      TablesInverse(w, ch);
    }
  }

  // ----- The characters of the code -----

  /** The character for the digit of `n`, a number of 24 bits, that counts 64 ^ (3 - j). */
  function DigitOf(n: nat, j: nat): char
    requires j < 4
  {
    CharacterOf((if j == 0 then n / 262144 else if j == 1 then n / 4096 else if j == 2 then n / 64 else n) % 64)
  }

  /** The bytes from `i` on, three at most, as a number of 24 bits. */
  function Number(x: seq<Octet>, i: nat): nat
    requires i < |x|
  {
    var a: nat, b: nat, c: nat := x[i], if i + 1 < |x| then x[i + 1] else 0, if i + 2 < |x| then x[i + 2] else 0;
    a * 65536 + b * 256 + c
  }

  /** Four characters stand for the bytes from `i` on: three bytes have four digits, two have three, one has two, and
      pads make up for the others. */
  ghost predicate GroupIs(s: string, at: nat, x: seq<Octet>, i: nat)
    requires i < |x|
  {
    && at + 4 <= |s| && s[at] == DigitOf(Number(x, i), 0) && s[at + 1] == DigitOf(Number(x, i), 1)
    && s[at + 2] == (if i + 1 < |x| then DigitOf(Number(x, i), 2) else '=')
    && s[at + 3] == (if i + 2 < |x| then DigitOf(Number(x, i), 3) else '=')
  }

  lemma FourDigits(p: nat, q: nat, r: nat, s: nat)
    requires p < 64 && q < 64 && r < 64 && s < 64
    ensures var n := 262144 * p + 4096 * q + 64 * r + s;
      n / 262144 % 64 == p && n / 4096 % 64 == q && n / 64 % 64 == r && n % 64 == s
  {
    var n := 262144 * p + 4096 * q + 64 * r + s;
    assert n / 64 == 4096 * p + 64 * q + r && n / 4096 == 64 * p + q && n / 262144 == p;
  }

  lemma DigitsOfNumber(a: nat, b: nat, c: nat)
    requires a < 256 && b < 256 && c < 256
    ensures var n := a * 65536 + b * 256 + c;
      && n / 262144 % 64 == a / 4 && n / 4096 % 64 == a % 4 * 16 + b / 16
      && n / 64 % 64 == b % 16 * 4 + c / 64 && n % 64 == c % 64
  {
    assert a == 4 * (a / 4) + a % 4 && b == 16 * (b / 16) + b % 16 && c == 64 * (c / 64) + c % 64;
    FourDigits(a / 4, a % 4 * 16 + b / 16, b % 16 * 4 + c / 64, c % 64);
  }

  lemma DigitsAre(n: nat, p: Sextet, q: Sextet, r: Sextet, s: Sextet)
    requires n / 262144 % 64 == p && n / 4096 % 64 == q && n / 64 % 64 == r && n % 64 == s
    ensures DigitOf(n, 0) == Letter(p) && DigitOf(n, 1) == Letter(q)
    ensures DigitOf(n, 2) == Letter(r) && DigitOf(n, 3) == Letter(s)
  {
    LetterIs(p);
    LetterIs(q);
    LetterIs(r);
    LetterIs(s);
  }

  lemma FirstGroupIs(x: seq<Octet>)
    requires x != []
    ensures GroupIs(Base64.FirstFour(x), 0, x, 0)
  {
    var a: nat, b: nat, c: nat := x[0], if 1 < |x| then x[1] else 0, if 2 < |x| then x[2] else 0;
    DigitsOfNumber(a, b, c);
    DigitsAre(Number(x, 0), a / 4, a % 4 * 16 + b / 16, b % 16 * 4 + c / 64, c % 64);
  }

  lemma GroupBehind(f: string, s: string, at: nat, x: seq<Octet>, i: nat)
    requires |f| == 4 && 3 <= |x| && i < |x| - 3 && GroupIs(s, at, x[3..], i)
    ensures GroupIs(f + s, at + 4, x, i + 3)
  {
    assert Number(x[3..], i) == Number(x, i + 3);
  }

  lemma GroupBefore(f: string, s: string, x: seq<Octet>)
    requires |f| == 4 && x != [] && GroupIs(f, 0, x, 0)
    ensures GroupIs(f + s, 0, x, 0)
  {
  }

  lemma FirstOfCode(x: seq<Octet>)
    requires x != []
    ensures GroupIs(Encode(x), 0, x, 0)
  {
    Base64.EncodeFirst(x);
    FirstGroupIs(x);
    GroupBefore(Base64.FirstFour(x), Encode(x[if |x| < 3 then |x| else 3..]), x);
  }

  lemma LaterOfCode(x: seq<Octet>, at: nat, i: nat)
    requires |x| >= 3 && i < |x| - 3 && GroupIs(Encode(x[3..]), at, x[3..], i)
    ensures GroupIs(Encode(x), at + 4, x, i + 3)
  {
    Base64.EncodeFirst(x);
    GroupBehind(Base64.FirstFour(x), Encode(x[3..]), at, x, i);
  }

  /** Group `g` of the code stands for bytes 3g, 3g + 1 and 3g + 2, and there is nothing else. */
  lemma {:induction false} CodeIs(x: seq<Octet>, g: nat)
    requires 3 * g < |x|
    ensures GroupIs(Encode(x), 4 * g, x, 3 * g) && |Encode(x)| == (|x| + 2) / 3 * 4
    decreases g
  {
    Base64.EncodeLength(x);
    if g == 0 {
      FirstOfCode(x);
    } else {
      CodeIs(x[3..], g - 1);
      LaterOfCode(x, 4 * (g - 1), 3 * (g - 1));
    }
  }

  // ----- Lines -----

  lemma {:induction false} StripAppend(a: string, b: string)
    ensures Strip(White, a + b) == Strip(White, a) + Strip(White, b)
  {
    if a == "" {
      assert a + b == b && "" + Strip(White, b) == Strip(White, b);
    } else {
      assert (a + b)[0] == a[0] && (a + b)[1..] == a[1..] + b;
      StripAppend(a[1..], b);
      Seqs.Assoc(if Ignorable(White, a[0]) then "" else [a[0]], Strip(White, a[1..]), Strip(White, b));
    }
  }

  predicate IsWhite(s: string) {
    forall ch | ch in s :: ch in WHITE_SPACE
  }

  lemma {:induction false} StripWhite(s: string)
    requires IsWhite(s)
    ensures Strip(White, s) == ""
  {
    if s != "" {
      WhiteIs(s[0]);
      StripWhite(s[1..]);
    }
  }

  /** The pieces, each followed by what is in the gap behind it. */
  function WithGaps(pieces: seq<string>, gaps: seq<string>): string
    requires |gaps| == |pieces|
  {
    if pieces == [] then "" else pieces[0] + gaps[0] + WithGaps(pieces[1..], gaps[1..])
  }

  lemma {:induction false} StripGaps(pieces: seq<string>, gaps: seq<string>)
    requires |gaps| == |pieces| && forall g | g in gaps :: IsWhite(g)
    ensures Strip(White, WithGaps(pieces, gaps)) == Strip(White, Concat(pieces))
  {
    if pieces != [] {
      assert gaps[0] in gaps;
      StripWhite(gaps[0]);
      StripAppend(pieces[0] + gaps[0], WithGaps(pieces[1..], gaps[1..]));
      StripAppend(pieces[0], gaps[0]);
      StripAppend(pieces[0], Concat(pieces[1..]));
      StripGaps(pieces[1..], gaps[1..]);
    }
  }

  /** However the code of `x` is cut, and whatever white space is put into and behind it: it decodes to `x`, with
      success, and all of the text is used. */
  lemma WhiteSpaceIsIgnored(x: seq<Octet>, pieces: seq<string>, gaps: seq<string>)
    requires Concat(pieces) == Encode(x) && |gaps| == |pieces| && forall g | g in gaps :: IsWhite(g)
    ensures var s := WithGaps(pieces, gaps); Decode(Flags(White, PadAny, TermBuffer), s) == Decoded(x, true, |s|)
  {
    NoWhite(x, true);
    StripNothing(Encode(x));
    StripGaps(pieces, gaps);
    WhiteAndLax(WithGaps(pieces, gaps), x);
  }

  /** Lines, with a carriage return and a line feed between every two of them. */
  function Lines(lines: seq<string>): string {
    if lines == [] then "" else if |lines| == 1 then lines[0] else lines[0] + "\r\n" + Lines(lines[1..])
  }

  function LineEnds(n: nat): (gaps: seq<string>)
    ensures |gaps| == n
  {
    if n == 0 then [] else [if n == 1 then "" else "\r\n"] + LineEnds(n - 1)
  }

  lemma {:induction false} LinesHaveGaps(lines: seq<string>)
    ensures Lines(lines) == WithGaps(lines, LineEnds(|lines|))
    ensures forall g | g in LineEnds(|lines|) :: g == "" || g == "\r\n"
  {
    if lines != [] {
      LinesHaveGaps(lines[1..]);
      assert LineEnds(|lines|)[1..] == LineEnds(|lines| - 1);
      if |lines| == 1 {
        assert lines[0] + "" + "" == lines[0];
      }
    }
  }

  /** The code of any bytes, broken into any lines, decodes to these bytes, with success, and all of it is used. */
  lemma BrokenIntoLines(x: seq<Octet>, lines: seq<string>)
    requires Concat(lines) == Encode(x)
    ensures var s := Lines(lines); Decode(Flags(White, PadAny, TermBuffer), s) == Decoded(x, true, |s|)
  {
    LinesHaveGaps(lines);
    forall g | g in LineEnds(|lines|)
      ensures IsWhite(g)
    {
      assert WHITE_SPACE[4] == '\r' && WHITE_SPACE[1] == '\n';
    }
    WhiteSpaceIsIgnored(x, lines, LineEnds(|lines|));
  }
}
