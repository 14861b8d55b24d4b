/** The published check value of the checksum, computed with machine words. */
module CrcCheckValue {
  import opened CrcCode
  import opened Words

  /** The register as a machine word: its upper 24 bits and its lowest byte. */
  predicate UpperIs(c: Word, b: bv32) {
    && (c[0] <==> b & 0x8000_0000 != 0) && (c[1] <==> b & 0x4000_0000 != 0)
    && (c[2] <==> b & 0x2000_0000 != 0) && (c[3] <==> b & 0x1000_0000 != 0)
    && (c[4] <==> b & 0x0800_0000 != 0) && (c[5] <==> b & 0x0400_0000 != 0)
    && (c[6] <==> b & 0x0200_0000 != 0) && (c[7] <==> b & 0x0100_0000 != 0)
    && (c[8] <==> b & 0x0080_0000 != 0) && (c[9] <==> b & 0x0040_0000 != 0)
    && (c[10] <==> b & 0x0020_0000 != 0) && (c[11] <==> b & 0x0010_0000 != 0)
    && (c[12] <==> b & 0x0008_0000 != 0) && (c[13] <==> b & 0x0004_0000 != 0)
    && (c[14] <==> b & 0x0002_0000 != 0) && (c[15] <==> b & 0x0001_0000 != 0)
    && (c[16] <==> b & 0x0000_8000 != 0) && (c[17] <==> b & 0x0000_4000 != 0)
    && (c[18] <==> b & 0x0000_2000 != 0) && (c[19] <==> b & 0x0000_1000 != 0)
    && (c[20] <==> b & 0x0000_0800 != 0) && (c[21] <==> b & 0x0000_0400 != 0)
    && (c[22] <==> b & 0x0000_0200 != 0) && (c[23] <==> b & 0x0000_0100 != 0)
  }

  predicate LowerIs(c: Word, b: bv32) {
    && (c[24] <==> b & 0x0000_0080 != 0) && (c[25] <==> b & 0x0000_0040 != 0)
    && (c[26] <==> b & 0x0000_0020 != 0) && (c[27] <==> b & 0x0000_0010 != 0)
    && (c[28] <==> b & 0x0000_0008 != 0) && (c[29] <==> b & 0x0000_0004 != 0)
    && (c[30] <==> b & 0x0000_0002 != 0) && (c[31] <==> b & 0x0000_0001 != 0)
  }

  predicate Is(c: Word, b: bv32) {
    UpperIs(c, b) && LowerIs(c, b)
  }

  /** One step in C: c & 1 ? 0xEDB88320 ^ (c >> 1) : c >> 1 */
  function Advance(b: bv32): bv32 {
    if b & 1 != 0 then 0xEDB8_8320 ^ (b >> 1) else b >> 1
  }

  lemma StepIsAdvance(c: Word, b: bv32)
    requires Is(c, b)
    ensures Is(Step(c), Advance(b))
  {
    forall i: nat | i < 32
      ensures Step(c)[i] == ((c[31] && POLYNOMIAL[i]) != (i > 0 && c[i - 1]))
    {
      StepAt(c, i);
    }
  }

  lemma UpperStays(c: Word, d: Word, b: bv32, e: bv32)
    requires UpperIs(c, b) && e & 0xFFFF_FF00 == 0 && forall i | 0 <= i < 24 :: d[i] == c[i]
    ensures UpperIs(d, b ^ e)
  {
  }

  lemma LowerXor(c: Word, d: Word, b: bv32, e: bv32)
    requires LowerIs(c, b) && LowerIs(d, e)
    ensures LowerIs(Xor(c, d), b ^ e)
  {
  }

  /** Eight steps. */
  function Advances(b: bv32): bv32 {
    Advance(Advance(Advance(Advance(Advance(Advance(Advance(Advance(b))))))))
  }

  lemma StepsAreAdvances(c: Word, b: bv32)
    requires Is(c, b)
    ensures Is(Steps(c, 8), Advances(b))
  {
    var c4, b4 := FourSteps(c, b, 8);
    var c8, b8 := FourSteps(c4, b4, 4);
  }

  lemma FourSteps(c: Word, b: bv32, n: nat) returns (c': Word, b': bv32)
    requires Is(c, b) && n >= 4
    ensures Steps(c, n) == Steps(c', n - 4) && b' == Advance(Advance(Advance(Advance(b)))) && Is(c', b')
  {
    StepIsAdvance(c, b);
    StepIsAdvance(Step(c), Advance(b));
    StepIsAdvance(Step(Step(c)), Advance(Advance(b)));
    c', b' := Step(Step(Step(c))), Advance(Advance(Advance(b)));
    StepIsAdvance(c', b');
    c', b' := Step(c'), Advance(b');
    StepsFirst(c, n);
    StepsFirst(Step(c), n - 1);
    StepsFirst(Step(Step(c)), n - 2);
    StepsFirst(Step(Step(Step(c))), n - 3);
  }

  predicate ByteIs(u: Byte, e: bv32) {
    && e & 0xFFFF_FF00 == 0
    && (u[0] <==> e & 0x80 != 0) && (u[1] <==> e & 0x40 != 0)
    && (u[2] <==> e & 0x20 != 0) && (u[3] <==> e & 0x10 != 0)
    && (u[4] <==> e & 0x08 != 0) && (u[5] <==> e & 0x04 != 0)
    && (u[6] <==> e & 0x02 != 0) && (u[7] <==> e & 0x01 != 0)
  }

  lemma ByteIsAdvances(c: Word, b: bv32, u: Byte, e: bv32)
    requires Is(c, b) && ByteIs(u, e)
    ensures Is(Feed(c, LowFirst(u)), Advances(b ^ e))
  {
    var d := Placed(LowFirst(u));
    UpperStays(c, Xor(c, d), b, e);
    LowerXor(c, d, b, e);
    FeedIsSteps(c, LowFirst(u));
    StepsAreAdvances(Xor(c, d), b ^ e);
  }

  /** One more byte of `buf`. */
  lemma NextByte(c: Word, b: bv32, e: bv32, b': bv32, buf: seq<Byte>, k: nat) returns (c': Word)
    requires k < |buf| && Is(c, b) && ByteIs(buf[k], e) && b' == Advances(b ^ e)
    ensures Is(c', b') && Feed(c, MessageBits(buf[k..])) == Feed(c', MessageBits(buf[k + 1..]))
  {
    c' := Feed(c, LowFirst(buf[k]));
    ByteIsAdvances(c, b, buf[k], e);
    FeedAppend(c, LowFirst(buf[k]), MessageBits(buf[k + 1..]));
    assert buf[k..][1..] == buf[k + 1..];
  }

  lemma FirstDigits(c: Word, buf: seq<Byte>) returns (c': Word)
    requires |buf| == 9 && Is(c, 0xFFFF_FFFF)
    requires ByteIs(buf[0], 0x31) && ByteIs(buf[1], 0x32) && ByteIs(buf[2], 0x33)
    ensures Is(c', 0x77B7_9C2D) && Feed(c, MessageBits(buf[0..])) == Feed(c', MessageBits(buf[3..]))
  {
    c' := NextByte(c, 0xFFFF_FFFF, 0x31, 0x7C23_1048, buf, 0);
    c' := NextByte(c', 0x7C23_1048, 0x32, 0xB0AC_BB32, buf, 1);
    c' := NextByte(c', 0xB0AC_BB32, 0x33, 0x77B7_9C2D, buf, 2);
  }

  lemma SecondDigits(c: Word, buf: seq<Byte>) returns (c': Word)
    requires |buf| == 9 && Is(c, 0x77B7_9C2D)
    requires ByteIs(buf[3], 0x34) && ByteIs(buf[4], 0x35) && ByteIs(buf[5], 0x36)
    ensures Is(c', 0xF68D_2C9E) && Feed(c, MessageBits(buf[3..])) == Feed(c', MessageBits(buf[6..]))
  {
    c' := NextByte(c, 0x77B7_9C2D, 0x34, 0x641C_1F5C, buf, 3);
    c' := NextByte(c', 0x641C_1F5C, 0x35, 0x340A_C5E3, buf, 4);
    c' := NextByte(c', 0x340A_C5E3, 0x36, 0xF68D_2C9E, buf, 5);
  }

  lemma ThirdDigits(c: Word, buf: seq<Byte>) returns (c': Word)
    requires |buf| == 9 && Is(c, 0xF68D_2C9E)
    requires ByteIs(buf[6], 0x37) && ByteIs(buf[7], 0x38) && ByteIs(buf[8], 0x39)
    ensures Is(c', 0x340B_C6D9) && Feed(c, MessageBits(buf[6..])) == Feed(c', MessageBits(buf[9..]))
  {
    c' := NextByte(c, 0xF68D_2C9E, 0x37, 0xAFFC_9660, buf, 6);
    c' := NextByte(c', 0xAFFC_9660, 0x38, 0x651F_2550, buf, 7);
    c' := NextByte(c', 0x651F_2550, 0x39, 0x340B_C6D9, buf, 8);
  }

  function One(b: bool): nat {
    if b then 1 else 0
  }

  lemma FourMore(w: Bits, k: nat)
    requires k + 4 <= |w|
    ensures Value(w[..k + 4]) ==
      16 * Value(w[..k]) + 8 * One(w[k]) + 4 * One(w[k + 1]) + 2 * One(w[k + 2]) + One(w[k + 3])
  {
    ValueOfOneMore(w, k);
    ValueOfOneMore(w, k + 1);
    ValueOfOneMore(w, k + 2);
    ValueOfOneMore(w, k + 3);
  }

  lemma ValueOfOneMore(w: Bits, k: nat)
    requires k < |w|
    ensures Value(w[..k + 1]) == 2 * Value(w[..k]) + One(w[k])
  {
    assert w[..k + 1][..k] == w[..k];
  }

  lemma DigitIs(u: Byte, n: nat)
    requires n < 10 && Value(u) == 0x30 + n
    ensures !u[0] && !u[1] && u[2] && u[3]
    ensures u[4] == (n >= 8) && u[5] == (4 <= n < 8) && u[6] == (n in {2, 3, 6, 7}) && u[7] == (n % 2 == 1)
  {
    assert u[..0] == [] && u[..8] == u;
    FourMore(u, 0);
    FourMore(u, 4);
    assert Value(u[..4]) == 3;
  }

  lemma OneToNine(buf: seq<Byte>)
    requires |buf| == 9 && forall k: nat | k < 9 :: Value(buf[k]) == 0x31 + k
    ensures ByteIs(buf[0], 0x31) && ByteIs(buf[1], 0x32) && ByteIs(buf[2], 0x33)
    ensures ByteIs(buf[3], 0x34) && ByteIs(buf[4], 0x35) && ByteIs(buf[5], 0x36)
    ensures ByteIs(buf[6], 0x37) && ByteIs(buf[7], 0x38) && ByteIs(buf[8], 0x39)
  {
    forall k: nat | k < 9
      ensures var u, n := buf[k], k + 1;
        && !u[0] && !u[1] && u[2] && u[3] && u[4] == (n >= 8) && u[5] == (4 <= n < 8)
        && u[6] == (n in {2, 3, 6, 7}) && u[7] == (n % 2 == 1)
    {
      DigitIs(buf[k], k + 1);
    }
  }

  lemma ResultBits(c: Word)
    requires Is(c, 0x340B_C6D9)
    ensures !c[0] && !c[1] && c[2] && c[3] && !c[4] && c[5] && !c[6] && !c[7]
    ensures !c[8] && !c[9] && !c[10] && !c[11] && c[12] && !c[13] && c[14] && c[15]
    ensures c[16] && c[17] && !c[18] && !c[19] && !c[20] && c[21] && c[22] && !c[23]
    ensures c[24] && c[25] && !c[26] && c[27] && c[28] && !c[29] && !c[30] && c[31]
  {
  }

  lemma ResultIs(c: Word)
    requires Is(c, 0x340B_C6D9)
    ensures Value(Not(c)) == 0xCBF4_3926
  {
    ResultBits(c);
    ValueOfResult(c, Not(c));
  }

  lemma ValueOfResult(c: Word, w: Word)
    requires w == Not(c)
    requires !c[0] && !c[1] && c[2] && c[3] && !c[4] && c[5] && !c[6] && !c[7]
    requires !c[8] && !c[9] && !c[10] && !c[11] && c[12] && !c[13] && c[14] && c[15]
    requires c[16] && c[17] && !c[18] && !c[19] && !c[20] && c[21] && c[22] && !c[23]
    requires c[24] && c[25] && !c[26] && c[27] && c[28] && !c[29] && !c[30] && c[31]
    ensures Value(w) == 0xCBF4_3926
  {
    assert w[..0] == [] && w[..32] == w;
    FourMore(w, 0);
    assert Value(w[..4]) == 0xC;
    FourMore(w, 4);
    assert Value(w[..8]) == 0xCB;
    FourMore(w, 8);
    assert Value(w[..12]) == 0xCBF;
    FourMore(w, 12);
    assert Value(w[..16]) == 0xCBF4;
    FourMore(w, 16);
    assert Value(w[..20]) == 0xCBF43;
    FourMore(w, 20);
    assert Value(w[..24]) == 0xCBF439;
    FourMore(w, 24);
    assert Value(w[..28]) == 0xCBF4392;
    FourMore(w, 28);
    assert Value(w[..32]) == 0xCBF43926;
  }

  /** The published check value: the checksum of the characters '1' to '9'. */
  lemma CheckValue(buf: seq<Byte>)
    requires |buf| == 9 && forall k: nat | k < 9 :: Value(buf[k]) == '1' as int + k
    ensures Value(Crc(Zeros(32), buf)) == 0xCBF4_3926
  {
    OneToNine(buf);
    assert Not(Zeros(32)) == Ones(32);
    var c := Ones(32);
    assert Is(c, 0xFFFF_FFFF);
    assert buf[0..] == buf && MessageBits(buf[9..]) == [];
    c := FirstDigits(c, buf);
    c := SecondDigits(c, buf);
    c := ThirdDigits(c, buf);
    ResultIs(c);
  }
}
