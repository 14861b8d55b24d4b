/** Machine words as lists of bits, most significant first: what C's shifts and masks do to them, and their values. */
module Words {
  import opened Arithmetic

  type Bits = seq<bool>

  type Byte = b: Bits | |b| == 8 witness [false, false, false, false, false, false, false, false]

  function Zeros(n: nat): (b: Bits)
    ensures |b| == n
  {
    seq(n, _ => false)
  }

  function Ones(n: nat): (b: Bits)
    ensures |b| == n
  {
    seq(n, _ => true)
  }

  function And(a: Bits, b: Bits): (c: Bits)
    requires |a| == |b|
    ensures |c| == |a|
  {
    seq(|a|, i requires 0 <= i < |a| => a[i] && b[i])
  }

  function Or(a: Bits, b: Bits): (c: Bits)
    requires |a| == |b|
    ensures |c| == |a|
  {
    seq(|a|, i requires 0 <= i < |a| => a[i] || b[i])
  }

  function Xor(a: Bits, b: Bits): (c: Bits)
    requires |a| == |b|
    ensures |c| == |a|
  {
    seq(|a|, i requires 0 <= i < |a| => a[i] != b[i])
  }

  function Not(a: Bits): (c: Bits)
    ensures |c| == |a|
  {
    seq(|a|, i requires 0 <= i < |a| => !a[i])
  }

  function ShiftLeft(a: Bits, n: nat): (c: Bits)
    requires n <= |a|
    ensures |c| == |a|
  {
    a[n..] + Zeros(n)
  }

  function ShiftRight(a: Bits, n: nat): (c: Bits)
    requires n <= |a|
    ensures |c| == |a|
  {
    Zeros(n) + a[..|a| - n]
  }

  /** Conversion to a wider unsigned type. */
  function Widen(a: Bits, width: nat): (c: Bits)
    requires |a| <= width
    ensures |c| == width
  {
    Zeros(width - |a|) + a
  }

  /** The unsigned number that `a` stands for. */
  function Value(a: Bits): (v: nat)
    ensures v < Pow2(|a|)
  {
    if a == [] then 0 else 2 * Value(a[..|a| - 1]) + if a[|a| - 1] then 1 else 0
  }

  /** The low `width` bits of `v`. */
  function Low(v: nat, width: nat): (a: Bits)
    ensures |a| == width
  {
    if width == 0 then [] else Low(v / 2, width - 1) + [v % 2 == 1]
  }

  lemma {:induction false} ValueOfLow(v: nat, width: nat)
    ensures Value(Low(v, width)) == v % Pow2(width)
  {
    if width > 0 {
      var a := Low(v, width);
      assert a[..width - 1] == Low(v / 2, width - 1);
      ValueOfLow(v / 2, width - 1);
      ModTwice(v, Pow2(width - 1));
    }
  }

  lemma ModTwice(v: nat, p: nat)
    requires p > 0
    ensures v % (2 * p) == 2 * (v / 2 % p) + v % 2
  {
    var q, r := v / 2 / p, v / 2 % p;
    assert v / 2 == q * p + r;
    assert v == q * (2 * p) + (2 * r + v % 2);
    DivMod(q, 2 * p, 2 * r + v % 2);
  }

  lemma ValueOfSmall(v: nat, width: nat)
    requires v < Pow2(width)
    ensures Value(Low(v, width)) == v
  {
    ValueOfLow(v, width);
    DivMod(0, Pow2(width), v);
  }

  lemma {:induction false} LowOfValue(a: Bits)
    ensures Low(Value(a), |a|) == a
  {
    if a != [] {
      LowOfValue(a[..|a| - 1]);
      assert a == a[..|a| - 1] + [a[|a| - 1]];
    }
  }

  /** Truncation keeps the low bits. */
  lemma {:induction false} LowOfLow(v: nat, width: nat, n: nat)
    requires n <= width
    ensures Low(v, width)[width - n..] == Low(v, n)
  {
    if n > 0 {
      LowOfLow(v / 2, width - 1, n - 1);
    }
  }

  lemma {:induction false} LowOfSmall(v: nat, n: nat, zeros: nat)
    requires v < Pow2(n)
    ensures Low(v, zeros + n) == Zeros(zeros) + Low(v, n)
    decreases zeros + n
  {
    if n > 0 {
      LowOfSmall(v / 2, n - 1, zeros);
    } else if zeros > 0 {
      LowOfSmall(0, 0, zeros - 1);
    }
  }

  lemma {:induction false} ValueOfWide(zeros: nat, a: Bits)
    ensures Value(Zeros(zeros) + a) == Value(a)
    decreases zeros + |a|
  {
    var wide := Zeros(zeros) + a;
    if a != [] {
      ValueOfWide(zeros, a[..|a| - 1]);
      assert wide[..|wide| - 1] == Zeros(zeros) + a[..|a| - 1];
    } else if zeros > 0 {
      ValueOfWide(zeros - 1, []);
      assert wide[..|wide| - 1] == Zeros(zeros - 1) + [];
    }
  }

  lemma WideValue(wide: Bits, zeros: nat, a: Bits)
    requires wide == Zeros(zeros) + a
    ensures Value(wide) == Value(a)
  {
    ValueOfWide(zeros, a);
  }
}
