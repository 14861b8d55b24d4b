/** The code and its signed mapping as sections 9.1 and 9.1.1 of ITU-T H.264 tabulate them. */
module GolombTable {
  import opened Arithmetic
  import opened BitStream
  import opened Words

  /** A one in front counts as much as its place says. */
  lemma {:induction false} ValueOfDigits(info: Bits)
    ensures Value([true] + info) == Pow2(|info|) + Value(info)
  {
    var digits := [true] + info;
    if info == [] {
      assert digits[..0] == [];
    } else {
      ValueOfDigits(info[..|info| - 1]);
      assert digits[..|info|] == [true] + info[..|info| - 1];
    }
  }

  /** A prefix of `k` zeros and a one, and a suffix of `k` bits: the rows of Table 9-1, and nothing else is a code. */
  lemma CodeIs(v: nat, k: nat, suffix: Bits)
    requires |suffix| == k
    ensures Code(v) == Zeros(k) + [true] + suffix <==> v == Pow2(k) - 1 + Value(suffix)
  {
    var digits := [true] + suffix;
    assert Zeros(k) + [true] + suffix == Zeros(k) + digits;
    ValueOfDigits(suffix);
    if v == Pow2(k) - 1 + Value(suffix) {
      CodeOfDigits(v, digits);
    }
    if Code(v) == Zeros(k) + digits {
      CodeHolds(v);
      assert Low(v + 1, k + 1) == (Zeros(k) + digits)[k..] == digits;
    }
  }

  function PowMinusOne(n: nat): int {
    if n == 0 then 1 else -PowMinusOne(n - 1)
  }

  lemma {:induction false} PowMinusOneIs(n: nat)
    ensures PowMinusOne(n) == if n % 2 == 0 then 1 else -1
  {
    if n > 0 {
      PowMinusOneIs(n - 1);
    }
  }

  /** Code number `k` stands for k / 2, rounded up, times -1 to the power of k + 1: the formula of Table 9-3. */
  lemma SignedIs(k: nat)
    ensures Signed(k) == PowMinusOne(k + 1) * ((k + 1) / 2)
  {
    PowMinusOneIs(k + 1);
  }
}
