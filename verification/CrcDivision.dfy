/** The checksum as section 8 of RFC 1952 means it: the remainder of a division of polynomials over two elements. */
module CrcDivision {
  import opened CrcCode
  import opened Words

  /** A polynomial over two elements: the exponents that it has. */
  type Polynomial = set<nat>

  /** x^32 + x^26 + x^23 + x^22 + x^16 + x^12 + x^11 + x^10 + x^8 + x^7 + x^5 + x^4 + x^2 + x + 1 */
  const GENERATOR: Polynomial := {32, 26, 23, 22, 16, 12, 11, 10, 8, 7, 5, 4, 2, 1, 0}

  /** Terms that both have cancel. */
  function Plus(p: Polynomial, q: Polynomial): Polynomial {
    (p - q) + (q - p)
  }

  /** Times x^k. */
  function Shifted(p: Polynomial, k: nat): Polynomial {
    set e | e in p :: e + k
  }

  /** `g` times a polynomial that is given by its coefficients, the constant one first. */
  function Multiple(g: Polynomial, q: Bits): Polynomial {
    if q == [] then {} else Plus(if q[0] then g else {}, Shifted(Multiple(g, q[1..]), 1))
  }

  /** A register: its first bit, the highest, is the coefficient of 1, and its lowest is that of x^31. */
  function OfWord(c: Word): Polynomial {
    set i: nat | i < 32 && c[i]
  }

  /** A message: its last bit is the coefficient of 1. */
  function OfMessage(bits: Bits): Polynomial {
    set k: nat | k < |bits| && IsTerm(bits, k)
  }

  predicate IsTerm(bits: Bits, k: nat) {
    k < |bits| && bits[|bits| - 1 - k]
  }

  /** What is divided: the message times x^32, with the register added to its first 32 terms. */
  function Dividend(c: Word, bits: Bits): Polynomial {
    Plus(Shifted(OfMessage(bits), 32), Shifted(OfWord(c), |bits|))
  }

  // ----- Sums and shifts, coefficient by coefficient -----

  lemma ShiftedAt(p: Polynomial, k: nat, e: nat)
    ensures e in Shifted(p, k) <==> e >= k && e - k in p
  {
    if e >= k && e - k in p {
      assert e - k + k in Shifted(p, k);
    }
  }

  lemma PlusAt(p: Polynomial, q: Polynomial, e: nat)
    ensures e in Plus(p, q) <==> (e in p) != (e in q)
  {
  }

  /** The coefficient of x^e in the product. */
  predicate HasTerm(g: Polynomial, q: Bits, e: nat) {
    q != [] && (q[0] && e in g) != (e > 0 && HasTerm(g, q[1..], e - 1))
  }

  lemma {:induction false} MultipleAt(g: Polynomial, q: Bits, e: nat)
    ensures e in Multiple(g, q) <==> HasTerm(g, q, e)
    decreases |q|
  {
    if q != [] {
      PlusAt(if q[0] then g else {}, Shifted(Multiple(g, q[1..]), 1), e);
      ShiftedAt(Multiple(g, q[1..]), 1, e);
      if e > 0 {
        MultipleAt(g, q[1..], e - 1);
      }
    }
  }

  lemma {:induction false} AppendTerm(g: Polynomial, q: Bits, b: bool, e: nat)
    ensures HasTerm(g, q + [b], e) <==> HasTerm(g, q, e) != (b && e >= |q| && e - |q| in g)
    decreases |q|
  {
    if q == [] {
      assert (q + [b])[1..] == [];
    } else {
      assert (q + [b])[1..] == q[1..] + [b];
      if e > 0 {
        AppendTerm(g, q[1..], b, e - 1);
      }
    }
  }

  // ----- Feeding divides -----

  /** The quotient, with its highest coefficient last: what is subtracted at every step. */
  function Quotient(c: Word, bits: Bits): (q: Bits)
    ensures |q| == |bits|
    decreases |bits|
  {
    if bits == [] then [] else Quotient(FeedBit(c, bits[0]), bits[1..]) + [c[31] != bits[0]]
  }

  /** One bit: the register times x, and the bit times x^32, less the generator if there is such a term. */
  lemma FeedBitAt(c: Word, bit: bool, e: nat)
    ensures (e in OfWord(FeedBit(c, bit))) ==
      (((e > 0 && e - 1 in OfWord(c)) != (bit && e == 32)) != (c[31] != bit && e in GENERATOR))
  {
    var d: Word := c[31 := (c[31] != bit)];
    if e < 32 {
      StepAt(d, e);
      PolynomialAt(e);
    }
  }

  lemma PolynomialAt(e: nat)
    requires e < 32
    ensures POLYNOMIAL[e] <==> e in GENERATOR
  {
  }

  predicate InDividend(c: Word, bits: Bits, e: nat) {
    (e >= 32 && IsTerm(bits, e - 32)) != (e >= |bits| && e - |bits| in OfWord(c))
  }

  lemma DividendAt(c: Word, bits: Bits, e: nat)
    ensures e in Dividend(c, bits) <==> InDividend(c, bits, e)
  {
    PlusAt(Shifted(OfMessage(bits), 32), Shifted(OfWord(c), |bits|), e);
    ShiftedAt(OfMessage(bits), 32, e);
    ShiftedAt(OfWord(c), |bits|, e);
  }

  lemma MessageStep(bits: Bits, k: nat)
    requires bits != []
    ensures IsTerm(bits, k) <==> (bits[0] && k == |bits| - 1) != IsTerm(bits[1..], k)
  {
  }

  lemma RegisterStep(c: Word, bit: bool, n: nat, e: nat)
    ensures e >= n + 1 && e - (n + 1) in OfWord(c) <==>
      ((e >= n && e - n in OfWord(FeedBit(c, bit))) != (bit && e == n + 32))
        != (c[31] != bit && e >= n && e - n in GENERATOR)
  {
    if e >= n {
      FeedBitAt(c, bit, e - n);
    }
  }

  /** What one step of the division subtracts. */
  lemma OneStep(c: Word, bits: Bits, e: nat)
    requires bits != []
    ensures var n, subtracted := |bits| - 1, c[31] != bits[0];
      InDividend(c, bits, e) <==>
        InDividend(FeedBit(c, bits[0]), bits[1..], e) != (subtracted && e >= n && e - n in GENERATOR)
  {
    if e >= 32 {
      MessageStep(bits, e - 32);
    }
    RegisterStep(c, bits[0], |bits| - 1, e);
  }

  lemma {:induction false} DividesAt(c: Word, bits: Bits, e: nat)
    ensures InDividend(c, bits, e) != (e in OfWord(Feed(c, bits))) <==> HasTerm(GENERATOR, Quotient(c, bits), e)
    decreases |bits|
  {
    if bits != [] {
      var c' := FeedBit(c, bits[0]);
      OneStep(c, bits, e);
      DividesAt(c', bits[1..], e);
      AppendTerm(GENERATOR, Quotient(c', bits[1..]), c[31] != bits[0], e);
    }
  }

  // ----- A remainder is unique -----

  lemma {:induction false} NoMultiple(g: Polynomial, q: Bits, e: nat)
    requires forall i | 0 <= i < |q| :: !q[i]
    ensures !HasTerm(g, q, e)
    decreases |q|
  {
    if q != [] {
        if e > 0 {
        NoMultiple(g, q[1..], e - 1);
      }
    }
  }

  /** The highest term of a multiple. */
  lemma {:induction false} HighestTerm(g: Polynomial, q: Bits, t: nat)
    requires 32 in g && (forall e | e in g :: e <= 32)
    requires t < |q| && q[t] && forall i | t < i < |q| :: !q[i]
    ensures HasTerm(g, q, t + 32)
    decreases |q|
  {
    if t == 0 {
      NoMultiple(g, q[1..], 31);
    } else {
      HighestTerm(g, q[1..], t - 1);
    }
  }

  lemma {:induction false} LastTrue(q: Bits) returns (t: nat)
    requires exists i :: 0 <= i < |q| && q[i]
    ensures t < |q| && q[t] && forall i | t < i < |q| :: !q[i]
    decreases |q|
  {
    t := |q| - 1;
    if !q[t] {
      var i :| 0 <= i < |q| && q[i];
      assert q[..t][i];
      t := LastTrue(q[..t]);
    }
  }

  /** A multiple with no term from x^32 on is nothing. */
  lemma SmallMultiple(g: Polynomial, q: Bits, e: nat)
    requires 32 in g && (forall d | d in g :: d <= 32) && forall d: nat | HasTerm(g, q, d) :: d < 32
    ensures !HasTerm(g, q, e)
  {
    if i :| 0 <= i < |q| && q[i] {
      var t := LastTrue(q);
      HighestTerm(g, q, t);
      assert false;
    }
    NoMultiple(g, q, e);
  }

  /** The sum of two quotients, one of them continued with zeros. */
  function BothOf(p: Bits, q: Bits): Bits {
    if p == [] then q else if q == [] then p else [p[0] != q[0]] + BothOf(p[1..], q[1..])
  }

  lemma {:induction false} MultiplesAdd(g: Polynomial, p: Bits, q: Bits, e: nat)
    ensures HasTerm(g, BothOf(p, q), e) <==> HasTerm(g, p, e) != HasTerm(g, q, e)
    decreases |p|
  {
    if p != [] && q != [] {
      assert BothOf(p, q)[1..] == BothOf(p[1..], q[1..]);
            if e > 0 {
        MultiplesAdd(g, p[1..], q[1..], e - 1);
      }
    }
  }

  /** `p` and `r` differ by a multiple of the generator. */
  ghost predicate Congruent(p: Polynomial, r: Polynomial) {
    exists q :: Plus(p, r) == Multiple(GENERATOR, q)
  }

  lemma WordsEqual(c: Word, d: Word)
    requires forall e: nat :: e in OfWord(c) <==> e in OfWord(d)
    ensures c == d
  {
    forall i | 0 <= i < 32
      ensures c[i] == d[i]
    {
      assert i in OfWord(c) <==> i in OfWord(d);
    }
  }

  lemma RemainderUnique(p: Polynomial, c: Word, d: Word)
    requires Congruent(p, OfWord(c)) && Congruent(p, OfWord(d))
    ensures c == d
  {
    var q :| Plus(p, OfWord(c)) == Multiple(GENERATOR, q);
    var r :| Plus(p, OfWord(d)) == Multiple(GENERATOR, r);
    forall e: nat
      ensures HasTerm(GENERATOR, BothOf(q, r), e) <==> (e in OfWord(c)) != (e in OfWord(d))
    {
      MultiplesAdd(GENERATOR, q, r, e);
      MultipleAt(GENERATOR, q, e);
      MultipleAt(GENERATOR, r, e);
      PlusAt(p, OfWord(c), e);
      PlusAt(p, OfWord(d), e);
    }
    forall e: nat
      ensures e in OfWord(c) <==> e in OfWord(d)
    {
      SmallMultiple(GENERATOR, BothOf(q, r), e);
    }
    WordsEqual(c, d);
  }

  /** The register after a message is the remainder: it differs from what is divided by a multiple of the generator, and
      no other register does. */
  lemma FeedIsRemainder(c: Word, bits: Bits, r: Word)
    ensures r == Feed(c, bits) <==> Congruent(Dividend(c, bits), OfWord(r))
  {
    var feed := Feed(c, bits);
    forall e: nat
      ensures e in Plus(Dividend(c, bits), OfWord(feed)) <==> e in Multiple(GENERATOR, Quotient(c, bits))
    {
      PlusAt(Dividend(c, bits), OfWord(feed), e);
      DividendAt(c, bits, e);
      DividesAt(c, bits, e);
      MultipleAt(GENERATOR, Quotient(c, bits), e);
    }
    assert Plus(Dividend(c, bits), OfWord(feed)) == Multiple(GENERATOR, Quotient(c, bits));
    if Congruent(Dividend(c, bits), OfWord(r)) {
      RemainderUnique(Dividend(c, bits), r, feed);
    }
  }

  /** A checksum is the complement of the remainder that the message leaves after the complement of `start`. */
  lemma CrcIsRemainder(start: Word, buf: seq<Byte>, crc: Word)
    ensures crc == Crc(start, buf) <==> Congruent(Dividend(Not(start), MessageBits(buf)), OfWord(Not(crc)))
  {
    FeedIsRemainder(Not(start), MessageBits(buf), Not(crc));
    NotInjective(crc, Feed(Not(start), MessageBits(buf)));
  }
}
