/** Unsigned numbers as a stream prints them. */
module DecimalText {

  predicate IsDigit(ch: char) {
    '0' <= ch <= '9'
  }

  predicate AllDigits(s: string) {
    forall i | 0 <= i < |s| :: IsDigit(s[i])
  }

  /** What a row of digits means. */
  function Numeral(s: string): nat
    requires AllDigits(s)
  {
    if s == "" then 0 else 10 * Numeral(s[..|s| - 1]) + (s[|s| - 1] as nat - '0' as nat)
  }

  function Decimal(n: nat): (s: string)
    ensures s != ""
  {
    (if n < 10 then "" else Decimal(n / 10)) + ['0' + (n % 10) as char]
  }

  lemma {:induction false} DecimalMeans(n: nat)
    ensures AllDigits(Decimal(n)) && Numeral(Decimal(n)) == n
    ensures n > 0 ==> Decimal(n)[0] != '0'
    decreases n
  {
    var s := Decimal(n);
    if n >= 10 {
      DecimalMeans(n / 10);
      assert s[..|s| - 1] == Decimal(n / 10);
    } else {
      assert s[..|s| - 1] == "";
    }
  }

  /** A numeral with no zero in front, but for that of 0 itself. */
  predicate IsNumeral(s: string) {
    s != "" && AllDigits(s) && (s[0] == '0' ==> s == "0")
  }

  /** Two numerals of the same number. */
  lemma {:induction false} NumeralUnique(s: string, t: string)
    requires IsNumeral(s) && IsNumeral(t) && Numeral(s) == Numeral(t)
    ensures s == t
    decreases |s|
  {
    var a, b := s[..|s| - 1], t[..|t| - 1];
    SameDigit(Numeral(a), s[|s| - 1] as nat - '0' as nat, Numeral(b), t[|t| - 1] as nat - '0' as nat);
    if a != "" && b != "" {
      NumeralUnique(a, b);
    } else if a != "" {
      NotZero(a);
    } else if b != "" {
      NotZero(b);
    }
    assert s == a + [s[|s| - 1]] && t == b + [t[|t| - 1]];
  }

  lemma SameDigit(a: nat, d: nat, b: nat, e: nat)
    requires d < 10 && e < 10 && 10 * a + d == 10 * b + e
    ensures a == b && d == e
  {
  }

  lemma {:induction false} NotZero(s: string)
    requires IsNumeral(s) && s[0] != '0'
    ensures Numeral(s) > 0
  {
    if |s| > 1 {
      NotZero(s[..|s| - 1]);
    }
  }

  /** What is printed is the numeral of the number: there is exactly one. */
  lemma DecimalIs(n: nat, s: string)
    ensures s == Decimal(n) <==> IsNumeral(s) && Numeral(s) == n
  {
    DecimalMeans(n);
    assert n == 0 ==> Decimal(0) == "0";
    if IsNumeral(s) && Numeral(s) == n {
      NumeralUnique(s, Decimal(n));
    }
  }
}
