/** CRC-32 as section 8 of RFC 1952 defines it, one bit at a time, and what it detects. */
module CrcCode {
  import opened Words

  type Word = w: Bits | |w| == 32 witness Zeros(32)

  /** 0xEDB88320 */
  const POLYNOMIAL: Word :=
    [true, true, true, false] + [true, true, false, true] +
    [true, false, true, true] + [true, false, false, false] +
    [true, false, false, false] + [false, false, true, true] +
    [false, false, true, false] + [false, false, false, false]

  /** One step of the shift register: c & 1 ? polynomial ^ (c >> 1) : c >> 1 */
  function Step(c: Word): Word {
    if c[31] then Xor(POLYNOMIAL, ShiftRight(c, 1)) else ShiftRight(c, 1)
  }

  /** One bit of the message enters at the low end. */
  function FeedBit(c: Word, bit: bool): Word {
    Step(c[31 := (c[31] != bit)])
  }

  function Feed(c: Word, bits: Bits): Word
    decreases |bits|
  {
    if bits == [] then c else Feed(FeedBit(c, bits[0]), bits[1..])
  }

  /** The bits of a byte in the order in which they are fed: the lowest first. */
  function LowFirst(b: Byte): (bits: Bits)
    ensures |bits| == 8
  {
    seq(8, k requires 0 <= k < 8 => b[7 - k])
  }

  function MessageBits(buf: seq<Byte>): Bits {
    if buf == [] then [] else LowFirst(buf[0]) + MessageBits(buf[1..])
  }

  /** The checksum of `buf`, going on from the checksum `start`. */
  function Crc(start: Word, buf: seq<Byte>): Word {
    Not(Feed(Not(start), MessageBits(buf)))
  }

  // ----- The register is linear and loses nothing -----

  lemma StepLinear(a: Word, b: Word)
    ensures Step(Xor(a, b)) == Xor(Step(a), Step(b))
  {
    var both, each := Step(Xor(a, b)), Xor(Step(a), Step(b));
    forall i | 0 <= i < 32
      ensures both[i] == each[i]
    {
      StepAt(Xor(a, b), i);
      StepAt(a, i);
      StepAt(b, i);
    }
  }

  lemma StepAt(c: Word, i: nat)
    requires i < 32
    ensures Step(c)[i] == ((c[31] && POLYNOMIAL[i]) != (i > 0 && c[i - 1]))
  {
  }

  /** The polynomial's top bit tells which way a step went. */
  lemma StepInjective(a: Word, b: Word)
    requires Step(a) == Step(b)
    ensures a == b
  {
    assert Step(a)[0] == a[31] && Step(b)[0] == b[31];
    forall i | 0 <= i < 31
      ensures a[i] == b[i]
    {
      assert Step(a)[i + 1] == Step(b)[i + 1];
    }
  }

  function Steps(c: Word, n: nat): Word
    decreases n
  {
    if n == 0 then c else Steps(Step(c), n - 1)
  }

  lemma StepsFirst(c: Word, n: nat)
    requires n > 0
    ensures Steps(c, n) == Steps(Step(c), n - 1)
  {
  }

  lemma {:induction false} StepsLinear(a: Word, b: Word, n: nat)
    ensures Steps(Xor(a, b), n) == Xor(Steps(a, n), Steps(b, n))
    decreases n
  {
    if n > 0 {
      calc {
        Steps(Xor(a, b), n);
      ==  { StepsFirst(Xor(a, b), n); }
        Steps(Step(Xor(a, b)), n - 1);
      ==  { StepLinear(a, b); }
        Steps(Xor(Step(a), Step(b)), n - 1);
      ==  { StepsLinear(Step(a), Step(b), n - 1); }
        Xor(Steps(Step(a), n - 1), Steps(Step(b), n - 1));
      ==  { StepsFirst(a, n); StepsFirst(b, n); }
        Xor(Steps(a, n), Steps(b, n));
      }
    }
  }

  lemma {:induction false} StepsInjective(a: Word, b: Word, n: nat)
    requires Steps(a, n) == Steps(b, n)
    ensures a == b
    decreases n
  {
    if n > 0 {
      StepsFirst(a, n);
      StepsFirst(b, n);
      StepsInjective(Step(a), Step(b), n - 1);
      StepInjective(a, b);
    }
  }

  lemma ShiftTwice(c: Word, n: nat)
    requires 0 < n <= 32
    ensures ShiftRight(ShiftRight(c, 1), n - 1) == ShiftRight(c, n)
    ensures c[32 - n..] == Zeros(n) ==> ShiftRight(c, 1)[32 - (n - 1)..] == Zeros(n - 1)
  {
    assert Zeros(n - 1) + Zeros(1) == Zeros(n);
    assert ShiftRight(c, 1)[32 - (n - 1)..] == c[32 - n..][..n - 1];
  }

  /** While only zeros leave at the low end, steps are shifts. */
  lemma {:induction false} StepsShift(c: Word, n: nat)
    requires n <= 32 && c[32 - n..] == Zeros(n)
    ensures Steps(c, n) == ShiftRight(c, n)
    decreases n
  {
    if n > 0 {
      assert c[31] == c[32 - n..][n - 1];
      ShiftTwice(c, n);
      StepsShift(Step(c), n - 1);
    } else {
      assert Zeros(0) + c[..32] == c;
    }
  }

  /** Up to 32 bits placed in a word, the first one lowest. */
  function Placed(bits: Bits): Word
    requires |bits| <= 32
  {
    seq(32, i requires 0 <= i < 32 => 31 - i < |bits| && bits[31 - i])
  }

  /** Feeding up to 32 bits is the same as putting them in at once and stepping. */
  lemma {:induction false} FeedIsSteps(c: Word, bits: Bits)
    requires |bits| <= 32
    ensures Feed(c, bits) == Steps(Xor(c, Placed(bits)), |bits|)
    decreases |bits|
  {
    if bits == [] {
      assert Xor(c, Placed(bits)) == c;
    } else {
      var first, rest := c[31 := (c[31] != bits[0])], Placed(bits[1..]);
      var shifted: Word := rest[1..] + [false];
      assert Xor(c, Placed(bits)) == Xor(first, shifted);
      StepLinear(first, shifted);
      assert Step(shifted) == rest;
      FeedIsSteps(FeedBit(c, bits[0]), bits[1..]);
    }
  }

  lemma {:induction false} FeedAppend(c: Word, a: Bits, b: Bits)
    ensures Feed(c, a + b) == Feed(Feed(c, a), b)
    decreases |a|
  {
    if a == [] {
      assert a + b == b;
    } else {
      assert (a + b)[1..] == a[1..] + b;
      FeedAppend(FeedBit(c, a[0]), a[1..], b);
    }
  }

  lemma {:induction false} FeedInjective(c: Word, d: Word, bits: Bits)
    requires Feed(c, bits) == Feed(d, bits)
    ensures c == d
    decreases |bits|
  {
    if bits != [] {
      FeedInjective(FeedBit(c, bits[0]), FeedBit(d, bits[0]), bits[1..]);
      var c', d': Word := c[31 := (c[31] != bits[0])], d[31 := (d[31] != bits[0])];
      StepInjective(c', d');
      assert c == c'[31 := c[31]] && d == d'[31 := d[31]];
      assert c'[31] == d'[31];
    }
  }

  // ----- What is detected -----

  /** Messages that differ only within 32 consecutive bits have different checksums. */
  lemma BurstDetected(start: Word, before: Bits, a: Bits, b: Bits, behind: Bits)
    requires |a| == |b| <= 32 && a != b
    ensures Feed(start, before + a + behind) != Feed(start, before + b + behind)
  {
    var c := Feed(start, before);
    forall x | x == a || x == b
      ensures Feed(start, before + x + behind) == Feed(Feed(c, x), behind)
    {
      FeedAppend(start, before + x, behind);
      FeedAppend(start, before, x);
    }
    if Feed(Feed(c, a), behind) == Feed(Feed(c, b), behind) {
      FeedInjective(Feed(c, a), Feed(c, b), behind);
      FeedIsSteps(c, a);
      FeedIsSteps(c, b);
      StepsInjective(Xor(c, Placed(a)), Xor(c, Placed(b)), |a|);
      PlacedInjective(c, a, b);
    }
  }

  lemma PlacedInjective(c: Word, a: Bits, b: Bits)
    requires |a| == |b| <= 32 && Xor(c, Placed(a)) == Xor(c, Placed(b))
    ensures a == b
  {
    forall k | 0 <= k < |a|
      ensures a[k] == b[k]
    {
      assert Xor(c, Placed(a))[31 - k] == Xor(c, Placed(b))[31 - k];
    }
  }

  lemma {:induction false} MessageBitsAppend(a: seq<Byte>, b: seq<Byte>)
    ensures MessageBits(a + b) == MessageBits(a) + MessageBits(b)
  {
    if a == [] {
      assert a + b == b;
    } else {
      assert (a + b)[1..] == a[1..] + b;
      MessageBitsAppend(a[1..], b);
    }
  }

  lemma {:induction false} MessageBitsInjective(a: seq<Byte>, b: seq<Byte>)
    requires |a| == |b| && MessageBits(a) == MessageBits(b)
    ensures a == b && |MessageBits(a)| == 8 * |a|
  {
    if a != [] {
      var x, y := MessageBits(a), MessageBits(b);
      assert x[..8] == LowFirst(a[0]) && y[..8] == LowFirst(b[0]);
      assert x[8..] == MessageBits(a[1..]) && y[8..] == MessageBits(b[1..]);
      MessageBitsInjective(a[1..], b[1..]);
      forall i | 0 <= i < 8
        ensures a[0][i] == b[0][i]
      {
        assert LowFirst(a[0])[7 - i] == LowFirst(b[0])[7 - i];
      }
      assert a[0] == b[0];
    }
  }

  lemma NotInjective(a: Word, b: Word)
    ensures Not(Not(a)) == a
    ensures Not(a) == Not(b) ==> a == b
  {
    assert Not(Not(a)) == a && Not(Not(b)) == b;
  }

  /** Two buffers of the same length that differ in one byte, or only in four consecutive bytes,
      always have different checksums. */
  lemma ChangeDetected(start: Word, before: seq<Byte>, a: seq<Byte>, b: seq<Byte>, behind: seq<Byte>)
    requires |a| == |b| <= 4 && a != b
    ensures Crc(start, before + a + behind) != Crc(start, before + b + behind)
  {
    forall x | x == a || x == b
      ensures MessageBits(before + x + behind) == MessageBits(before) + MessageBits(x) + MessageBits(behind)
    {
      MessageBitsAppend(before + x, behind);
      MessageBitsAppend(before, x);
    }
    if MessageBits(a) == MessageBits(b) {
      MessageBitsInjective(a, b);
    }
    MessageBitsInjective(a, a);
    MessageBitsInjective(b, b);
    BurstDetected(Not(start), MessageBits(before), MessageBits(a), MessageBits(b), MessageBits(behind));
    NotInjective(Feed(Not(start), MessageBits(before + a + behind)),
                 Feed(Not(start), MessageBits(before + b + behind)));
  }

  /** A checksum can be continued. */
  lemma CrcAppend(start: Word, a: seq<Byte>, b: seq<Byte>)
    ensures Crc(Crc(start, a), b) == Crc(start, a + b)
  {
    MessageBitsAppend(a, b);
    FeedAppend(Not(start), MessageBits(a), MessageBits(b));
    NotInjective(Feed(Not(start), MessageBits(a)), start);
  }

  /** Different starting values are never confused either. */
  lemma CrcInjectiveInStart(start: Word, start': Word, buf: seq<Byte>)
    requires Crc(start, buf) == Crc(start', buf)
    ensures start == start'
  {
    NotInjective(Feed(Not(start), MessageBits(buf)), Feed(Not(start'), MessageBits(buf)));
    FeedInjective(Not(start), Not(start'), MessageBits(buf));
    NotInjective(start, start');
  }

  // ----- The table form -----

  /** The entry for `low`: eight steps from it. */
  function Entry(low: Byte): Word {
    Steps(Widen(low, 32), 8)
  }

  /** table[(c ^ u) & 0xFF] ^ (c >> 8) */
  function FeedByte(c: Word, u: Byte): Word {
    Xor(Entry(Xor(c[24..], u)), ShiftRight(c, 8))
  }

  /** The low byte goes through the table, and what is above it is shifted. */
  lemma EightSteps(x: Word)
    ensures Steps(x, 8) == Xor(Entry(x[24..]), ShiftRight(x, 8))
  {
    var high: Word := x[..24] + Zeros(8);
    assert x == Xor(Widen(x[24..], 32), high);
    StepsLinear(Widen(x[24..], 32), high, 8);
    assert high[24..] == Zeros(8);
    StepsShift(high, 8);
    assert ShiftRight(high, 8) == ShiftRight(x, 8);
  }

  /** One look-up does what eight single steps do. */
  lemma FeedByteIsFeed(c: Word, u: Byte)
    ensures FeedByte(c, u) == Feed(c, LowFirst(u))
  {
    FeedIsSteps(c, LowFirst(u));
    EightSteps(Xor(c, Placed(LowFirst(u))));
    PlacedByte(c, u);
  }

  lemma PlacedByte(c: Word, u: Byte)
    ensures var x := Xor(c, Placed(LowFirst(u))); x[24..] == Xor(c[24..], u) && ShiftRight(x, 8) == ShiftRight(c, 8)
  {
  }

  lemma WidenInjective(a: Byte, b: Byte)
    requires Widen(a, 32) == Widen(b, 32)
    ensures a == b
  {
    assert a == Widen(a, 32)[24..] && b == Widen(b, 32)[24..];
  }

  lemma {:induction false} ZeroStays(n: nat)
    ensures Steps(Zeros(32), n) == Zeros(32)
  {
    if n > 0 {
      assert Step(Zeros(32)) == Zeros(32);
      ZeroStays(n - 1);
    }
  }

  /** No entry but the first is zero. */
  lemma EntryNotZero(low: Byte)
    requires low != Zeros(8)
    ensures Entry(low) != Zeros(32)
  {
    if Entry(low) == Zeros(32) {
      ZeroStays(8);
      StepsInjective(Widen(low, 32), Zeros(32), 8);
      assert Widen(Zeros(8), 32) == Zeros(32);
      WidenInjective(low, Zeros(8));
    }
  }
}
