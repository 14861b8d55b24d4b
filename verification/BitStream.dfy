/** What a bit buffer holds, as one sequence of bits, and the Exponential-Golomb code over it. */
module BitStream {
  import opened Arithmetic
  import opened Words

  /** The bits of a byte array, in the order in which they are read. */
  function Stream(bytes: seq<Byte>): (s: Bits)
    ensures |s| == 8 * |bytes|
  {
    if bytes == [] then [] else bytes[0] + Stream(bytes[1..])
  }

  /** `b` written over `s` at `pos`: all other bits stay. */
  function Written(s: Bits, pos: nat, b: Bits): (s': Bits)
    requires pos + |b| <= |s|
    ensures |s'| == |s|
  {
    s[..pos] + b + s[pos + |b|..]
  }

  lemma WrittenTwice(s: Bits, pos: nat, a: Bits, b: Bits)
    requires pos + |a| + |b| <= |s|
    ensures Written(Written(s, pos, a), pos + |a|, b) == Written(s, pos, a + b)
  {
  }

  /** `b` stands in `s` at `pos`. */
  predicate At(s: Bits, pos: nat, b: Bits) {
    pos + |b| <= |s| && s[pos..pos + |b|] == b
  }

  lemma WrittenReads(s: Bits, pos: nat, b: Bits)
    requires pos + |b| <= |s|
    ensures At(Written(s, pos, b), pos, b)
    ensures forall k | 0 <= k < |s| && !(pos <= k < pos + |b|) :: Written(s, pos, b)[k] == s[k]
  {
  }

  lemma AtSplit(s: Bits, pos: nat, a: Bits, b: Bits)
    ensures At(s, pos, a + b) <==> At(s, pos, a) && At(s, pos + |a|, b)
  {
    if At(s, pos, a + b) {
      assert s[pos..pos + |a|] == s[pos..pos + |a + b|][..|a|] == a;
      assert s[pos + |a|..pos + |a| + |b|] == s[pos..pos + |a + b|][|a|..] == b;
    }
  }

  lemma {:induction false} StreamAt(bytes: seq<Byte>, i: nat)
    requires i < |bytes|
    ensures At(Stream(bytes), 8 * i, bytes[i])
  {
    if i > 0 {
      StreamAt(bytes[1..], i - 1);
      AtAfter(bytes[0], Stream(bytes[1..]), 8 * (i - 1), bytes[i]);
    }
  }

  lemma AtAfter(a: Bits, s: Bits, pos: nat, b: Bits)
    requires At(s, pos, b)
    ensures At(a + s, |a| + pos, b)
  {
    assert (a + s)[|a| + pos..|a| + pos + |b|] == s[pos..pos + |b|];
  }

  lemma {:induction false} StreamPut(bytes: seq<Byte>, i: nat, b: Byte)
    requires i < |bytes|
    ensures Stream(bytes[i := b]) == Written(Stream(bytes), 8 * i, b)
  {
    if i == 0 {
      assert bytes[0 := b][1..] == bytes[1..];
    } else {
      StreamPut(bytes[1..], i - 1, b);
      assert bytes[i := b][1..] == bytes[1..][i - 1 := b];
      WrittenAfter(bytes[0], Stream(bytes[1..]), 8 * (i - 1), b);
    }
  }

  lemma WrittenAfter(a: Bits, s: Bits, pos: nat, b: Bits)
    requires pos + |b| <= |s|
    ensures Written(a + s, |a| + pos, b) == a + Written(s, pos, b)
  {
  }

  /** Some bits of one byte. */
  lemma StreamPutPart(bytes: seq<Byte>, i: nat, offset: nat, b: Bits)
    requires i < |bytes| && offset + |b| <= 8
    ensures Stream(bytes[i := Written(bytes[i], offset, b)]) == Written(Stream(bytes), 8 * i + offset, b)
  {
    StreamAt(bytes, i);
    StreamPut(bytes, i, Written(bytes[i], offset, b));
    WrittenPart(Stream(bytes), 8 * i, bytes[i], offset, b);
  }

  lemma WrittenPart(s: Bits, pos: nat, byte: Bits, offset: nat, b: Bits)
    requires At(s, pos, byte) && offset + |b| <= |byte|
    ensures Written(s, pos, Written(byte, offset, b)) == Written(s, pos + offset, b)
  {
    assert s == s[..pos] + byte + s[pos + |byte|..];
  }

  // ----- Exponential-Golomb -----

  /** The number of binary digits of `v`. */
  function Length(v: nat): nat {
    if v == 0 then 0 else 1 + Length(v / 2)
  }

  lemma {:induction false} LengthTight(v: nat)
    ensures v < Pow2(Length(v)) && (v > 0 ==> Length(v) > 0 && Pow2(Length(v) - 1) <= v)
  {
    if v > 1 {
      LengthTight(v / 2);
    }
  }

  lemma {:induction false} Pow2Mono(a: nat, b: nat)
    requires a <= b
    ensures Pow2(a) <= Pow2(b)
    decreases b
  {
    if a < b {
      Pow2Mono(a, b - 1);
    }
  }

  lemma {:induction false} Pow2Add(a: nat, b: nat)
    ensures Pow2(a + b) == Pow2(a) * Pow2(b)
  {
    if a > 0 {
      Pow2Add(a - 1, b);
      MulAssoc(2, Pow2(a - 1), Pow2(b));
    }
  }

  const UINT32_MAX: nat := 0xFFFF_FFFF

  lemma Pow2Of32()
    ensures Pow2(32) == UINT32_MAX + 1
  {
    assert Pow2(8) == 0x100;
    assert Pow2(16) == Pow2(8) * Pow2(8) && Pow2(24) == Pow2(8) * Pow2(16) by {
      Pow2Add(8, 8);
      Pow2Add(8, 16);
    }
    Pow2Add(8, 24);
  }

  lemma Length32(v: nat)
    requires 0 < v <= UINT32_MAX
    ensures 1 <= Length(v) <= 32
  {
    LengthTight(v);
    Pow2Of32();
    if Length(v) > 32 {
      Pow2Mono(32, Length(v) - 1);
    }
  }

  /** The code of `v`: as many zeros as v + 1 has digits after its first, and then v + 1. */
  function Code(v: nat): Bits {
    Zeros(Length(v + 1) - 1) + Low(v + 1, Length(v + 1))
  }

  function LeadingZeros(s: Bits, pos: nat): (z: nat)
    requires pos <= |s|
    ensures pos + z <= |s| && (pos + z < |s| ==> s[pos + z])
    decreases |s| - pos
  {
    if pos == |s| || s[pos] then 0 else 1 + LeadingZeros(s, pos + 1)
  }

  lemma {:induction false} ZerosLead(s: Bits, pos: nat)
    requires pos <= |s|
    ensures At(s, pos, Zeros(LeadingZeros(s, pos)))
    decreases |s| - pos
  {
    if pos < |s| && !s[pos] {
      ZerosLead(s, pos + 1);
      var z := LeadingZeros(s, pos + 1);
      assert s[pos..pos + 1 + z] == [s[pos]] + s[pos + 1..pos + 1 + z];
      assert [false] + Zeros(z) == Zeros(z + 1);
    }
  }

  lemma {:induction false} ZerosThenOne(s: Bits, pos: nat, z: nat)
    requires pos + z < |s| && s[pos..pos + z] == Zeros(z) && s[pos + z]
    ensures LeadingZeros(s, pos) == z
    decreases z
  {
    if z > 0 {
      assert s[pos] == s[pos..pos + z][0];
      assert s[pos + 1..pos + 1 + (z - 1)] == s[pos..pos + z][1..];
      assert Zeros(z)[1..] == Zeros(z - 1);
      ZerosThenOne(s, pos + 1, z - 1);
    }
  }

  lemma {:induction false} ValueOfLeadingOne(a: Bits)
    requires a != [] && a[0]
    ensures Pow2(|a| - 1) <= Value(a)
  {
    if |a| > 1 {
      ValueOfLeadingOne(a[..|a| - 1]);
    }
  }

  lemma {:induction false} LengthOfValue(a: Bits)
    requires a != [] && a[0]
    ensures Length(Value(a)) == |a|
  {
    if |a| > 1 {
      ValueOfLeadingOne(a[..|a| - 1]);
      LengthOfValue(a[..|a| - 1]);
      assert Value(a) / 2 == Value(a[..|a| - 1]);
    } else {
      assert Value(a[..0]) == 0;
      assert Value(a) == 1 && Length(1) == 1 + Length(0);
    }
  }

  lemma {:induction false} FirstOfLow(v: nat)
    requires v > 0
    ensures Low(v, Length(v))[0]
  {
    if v > 1 {
      FirstOfLow(v / 2);
    }
  }

  datatype Decoded = Fail | Decoded(value: nat, size: nat)

  /** What is encoded at `pos`, if it is there and fits an unsigned 32-bit integer. */
  function Golomb(s: Bits, pos: nat): (d: Decoded)
    requires pos <= |s|
    ensures d.Decoded? ==> pos + d.size <= |s|
  {
    var z := LeadingZeros(s, pos);
    if z > 31 || pos + 2 * z + 1 > |s| then Fail
    else
      var digits := s[pos + z..pos + 2 * z + 1];
      ValueOfLeadingOne(digits);
      Decoded(Value(digits) - 1, 2 * z + 1)
  }

  /** The digits start with a one, so taking 1 off does not wrap around, and UINT32_MAX is never the result. */
  lemma GolombDoesNotWrap(s: Bits, pos: nat)
    requires pos <= |s| && Golomb(s, pos).Decoded?
    ensures var z := LeadingZeros(s, pos); 1 <= Value(s[pos + z..pos + 2 * z + 1]) <= UINT32_MAX
    ensures Golomb(s, pos).value < UINT32_MAX
  {
    var z := LeadingZeros(s, pos);
    ValueOfLeadingOne(s[pos + z..pos + 2 * z + 1]);
    Pow2Mono(z + 1, 32);
    Pow2Of32();
  }

  /** Decoding finds `v` exactly where its code is. */
  lemma GolombOfCode(s: Bits, pos: nat, v: nat)
    requires pos <= |s| && v < UINT32_MAX
    ensures Golomb(s, pos) == Decoded(v, |Code(v)|) <==> At(s, pos, Code(v))
  {
    if At(s, pos, Code(v)) {
      CodeIsRead(s, pos, v);
    } else if Golomb(s, pos).Decoded? {
      ReadIsCode(s, pos);
    }
  }

  lemma CodeParts(s: Bits, pos: nat, v: nat)
    requires At(s, pos, Code(v)) && v < UINT32_MAX
    ensures var z := Length(v + 1) - 1;
      z <= 31 && LeadingZeros(s, pos) == z && At(s, pos + z, Low(v + 1, z + 1))
  {
    var z, digits := Length(v + 1) - 1, Low(v + 1, Length(v + 1));
    Length32(v + 1);
    AtSplit(s, pos, Zeros(z), digits);
    FirstOfLow(v + 1);
    assert s[pos + z] == s[pos + z..pos + z + |digits|][0];
    ZerosThenOne(s, pos, z);
  }

  lemma CodeIsRead(s: Bits, pos: nat, v: nat)
    requires pos <= |s| && v < UINT32_MAX && At(s, pos, Code(v))
    ensures Golomb(s, pos) == Decoded(v, |Code(v)|)
  {
    var z := Length(v + 1) - 1;
    CodeParts(s, pos, v);
    CodeHolds(v);
    DigitsAreRead(s, pos, z, Low(v + 1, z + 1));
  }

  lemma CodeHolds(v: nat)
    ensures Length(v + 1) > 0 && Value(Low(v + 1, Length(v + 1))) == v + 1
    ensures |Code(v)| == 2 * (Length(v + 1) - 1) + 1
  {
    LengthTight(v + 1);
    ValueOfSmall(v + 1, Length(v + 1));
  }

  lemma DigitsAreRead(s: Bits, pos: nat, z: nat, digits: Bits)
    requires pos <= |s| && z <= 31 && LeadingZeros(s, pos) == z && At(s, pos + z, digits) && |digits| == z + 1
    requires Value(digits) > 0
    ensures Golomb(s, pos) == Decoded(Value(digits) - 1, 2 * z + 1)
  {
  }

  lemma CodeOfDigits(v: nat, digits: Bits)
    requires digits != [] && digits[0] && v + 1 == Value(digits)
    ensures |Code(v)| == 2 * |digits| - 1 && Code(v) == Zeros(|digits| - 1) + digits
  {
    LengthOfValue(digits);
    LowOfValue(digits);
  }

  lemma ReadIsCode(s: Bits, pos: nat)
    requires pos <= |s| && Golomb(s, pos).Decoded?
    ensures var d := Golomb(s, pos); d.size == |Code(d.value)| && s[pos..pos + d.size] == Code(d.value)
  {
    var z := LeadingZeros(s, pos);
    var digits := s[pos + z..pos + 2 * z + 1];
    ValueOfLeadingOne(digits);
    CodeOfDigits(Value(digits) - 1, digits);
    ZerosLead(s, pos);
    assert s[pos..pos + 2 * z + 1] == s[pos..pos + z] + digits;
  }

  // ----- The signed mapping -----

  const INT32_MAX: int := 0x7FFF_FFFF

  /** 0, 1, -1, 2, -2 and so on. */
  function Signed(u: nat): int {
    if u % 2 == 0 then -(u / 2) else (u + 1) / 2
  }

  function Unsigned(i: int): nat {
    if i <= 0 then -2 * i else 2 * i - 1
  }

  /** It takes 0 .. 2^32 - 2 one to one onto -(2^31 - 1) .. 2^31 - 1. */
  lemma SignedBijection(u: nat, i: int)
    ensures Unsigned(Signed(u)) == u && Signed(Unsigned(i)) == i
    ensures u < UINT32_MAX <==> -INT32_MAX <= Signed(u) <= INT32_MAX
    ensures -INT32_MAX <= i <= INT32_MAX <==> Unsigned(i) < UINT32_MAX
  {
  }

  // ----- Whole sequences of codes -----

  /** A buffer's bits and the position in them. */
  datatype State = State(bits: Bits, pos: nat)

  ghost predicate InRange(s: State) {
    s.pos <= |s.bits|
  }

  /** The number that the next `n` bits stand for. */
  function Peek(s: State, n: nat): nat
    requires s.pos + n <= |s.bits|
  {
    Value(s.bits[s.pos..s.pos + n])
  }

  lemma PeekOne(s: State)
    requires s.pos < |s.bits|
    ensures Peek(s, 1) == if s.bits[s.pos] then 1 else 0
  {
    assert s.bits[s.pos..s.pos + 1][..0] == [];
  }

  function GolombAt(s: State): Decoded
    requires InRange(s)
  {
    Golomb(s.bits, s.pos)
  }

  /** Reading a code moves behind it, or not at all. */
  function AfterReadGolomb(s: State): (s': State)
    requires InRange(s)
    ensures InRange(s')
  {
    match GolombAt(s)
    case Fail => s
    case Decoded(_, size) => s.(pos := s.pos + size)
  }

  /** How ReadExponentialGolomb gets there: it skips `z` zeros and reads z + 1 digits, if it can. */
  predicate DigitsThere(s: State, z: nat) {
    z <= 31 && s.pos + 2 * z + 1 <= |s.bits|
  }

  lemma NoDigits(s: State, z: nat)
    requires InRange(s) && z == LeadingZeros(s.bits, s.pos) && !DigitsThere(s, z)
    ensures GolombAt(s) == Fail && AfterReadGolomb(s) == s
  {
  }

  lemma GolombByDigits(s: State, z: nat, v: nat)
    requires InRange(s) && z == LeadingZeros(s.bits, s.pos) && DigitsThere(s, z)
    requires v == Peek(s.(pos := s.pos + z), z + 1)
    ensures v >= 1 && GolombAt(s) == Decoded(v - 1, 2 * z + 1)
    ensures AfterReadGolomb(s) == s.(pos := s.pos + 2 * z + 1)
  {
    DigitsAsPeeked(s, z);
    GolombDoesNotWrap(s.bits, s.pos);
  }

  lemma DigitsAsPeeked(s: State, z: nat)
    requires s.pos + 2 * z + 1 <= |s.bits|
    ensures Peek(s.(pos := s.pos + z), z + 1) == Value(s.bits[s.pos + z..s.pos + 2 * z + 1])
  {
  }

  /** WriteBits of the low `n` bits of `val`, which changes nothing if there is no room. */
  function AfterWrite(s: State, val: nat, n: nat): (s': State)
    requires InRange(s)
    ensures InRange(s')
  {
    if n > |s.bits| - s.pos then s else State(Written(s.bits, s.pos, Low(val, n)), s.pos + n)
  }

  predicate CanWriteGolomb(s: State, v: nat) {
    v < UINT32_MAX && s.pos + |Code(v)| <= |s.bits|
  }

  function AfterGolomb(s: State, v: nat): (s': State)
    requires InRange(s)
    ensures InRange(s')
  {
    if CanWriteGolomb(s, v) then State(Written(s.bits, s.pos, Code(v)), s.pos + |Code(v)|) else s
  }

  /** The value with its leading zeros is the code. */
  lemma CodeIsLow(v: nat)
    requires v < UINT32_MAX
    ensures Code(v) == Low(v + 1, 2 * Length(v + 1) - 1) && 1 <= |Code(v)| <= 63
  {
    Length32(v + 1);
    LengthTight(v + 1);
    LowOfSmall(v + 1, Length(v + 1), Length(v + 1) - 1);
  }

  ghost predicate CanWriteAll(s: State, values: seq<nat>)
    requires InRange(s)
    decreases |values|
  {
    values == [] || (CanWriteGolomb(s, values[0]) && CanWriteAll(AfterGolomb(s, values[0]), values[1..]))
  }

  function AfterAll(s: State, values: seq<nat>): (s': State)
    requires InRange(s)
    ensures InRange(s')
    decreases |values|
  {
    if values == [] then s else AfterAll(AfterGolomb(s, values[0]), values[1..])
  }

  function CodesSize(values: seq<nat>): nat {
    if values == [] then 0 else |Code(values[0])| + CodesSize(values[1..])
  }

  datatype DecodedList = FailList | DecodedList(values: seq<nat>, end: nat)

  /** Reads `n` codes one after the other. */
  function GolombList(s: Bits, pos: nat, n: nat): DecodedList
    requires pos <= |s|
    decreases n
  {
    if n == 0 then DecodedList([], pos)
    else
      match Golomb(s, pos)
      case Fail => FailList
      case Decoded(v, size) =>
        match GolombList(s, pos + size, n - 1)
        case FailList => FailList
        case DecodedList(values, end) => DecodedList([v] + values, end)
  }

  /** A list can be written just when its values are encodable and there is room for all the codes. */
  lemma {:induction false} CanWriteAllExactly(s: State, values: seq<nat>)
    requires InRange(s)
    ensures CanWriteAll(s, values) <==>
      s.pos + CodesSize(values) <= |s.bits| && forall i | 0 <= i < |values| :: values[i] < UINT32_MAX
    decreases |values|
  {
    if values != [] && CanWriteGolomb(s, values[0]) {
      CanWriteAllExactly(AfterGolomb(s, values[0]), values[1..]);
      assert forall i | 1 <= i < |values| :: values[i] == values[1..][i - 1];
    }
  }

  /** Writing a list changes only the bits from where it started to where it ended. */
  lemma {:induction false} WritesBetween(s: State, values: seq<nat>)
    requires InRange(s) && CanWriteAll(s, values)
    ensures var s' := AfterAll(s, values);
      && s'.pos == s.pos + CodesSize(values) && |s'.bits| == |s.bits|
      && s'.bits[..s.pos] == s.bits[..s.pos] && s'.bits[s'.pos..] == s.bits[s'.pos..]
    decreases |values|
  {
    if values != [] {
      var s1 := AfterGolomb(s, values[0]);
      WritesBetween(s1, values[1..]);
      SameBefore(AfterAll(s, values).bits, s1.bits, s1.pos, s.pos);
    }
  }

  lemma SameBefore(a: Bits, b: Bits, n: nat, m: nat)
    requires m <= n <= |a| && n <= |b| && a[..n] == b[..n]
    ensures a[..m] == b[..m] && a[m..n] == b[m..n]
  {
    assert a[..m] == a[..n][..m] && a[m..n] == a[..n][m..] && b[m..n] == b[..n][m..];
  }

  lemma ReadsOneMore(s: Bits, pos: nat, values: seq<nat>, next: nat, end: nat)
    requires values != [] && pos <= next <= |s| && Golomb(s, pos) == Decoded(values[0], next - pos)
    requires GolombList(s, next, |values| - 1) == DecodedList(values[1..], end)
    ensures GolombList(s, pos, |values|) == DecodedList(values, end)
  {
    assert values == [values[0]] + values[1..];
  }

  lemma FirstReadsBack(s: State, values: seq<nat>)
    requires InRange(s) && CanWriteAll(s, values) && values != []
    ensures var b, next := AfterAll(s, values).bits, AfterGolomb(s, values[0]).pos;
      s.pos <= next <= |b| && Golomb(b, s.pos) == Decoded(values[0], next - s.pos)
  {
    var s1, b := AfterGolomb(s, values[0]), AfterAll(s, values).bits;
    WritesBetween(s1, values[1..]);
    SameBefore(b, s1.bits, s1.pos, s.pos);
    WrittenReads(s.bits, s.pos, Code(values[0]));
    CodeIsRead(b, s.pos, values[0]);
  }

  /** If all writes of a list succeed, from any bit offset, reading from there gives the list back
      and ends where the writes ended. */
  lemma {:induction false} GolombListRoundTrip(s: State, values: seq<nat>)
    requires InRange(s) && CanWriteAll(s, values)
    ensures s.pos <= |AfterAll(s, values).bits|
    ensures GolombList(AfterAll(s, values).bits, s.pos, |values|) == DecodedList(values, AfterAll(s, values).pos)
    decreases |values|
  {
    if values != [] {
      var s1, s' := AfterGolomb(s, values[0]), AfterAll(s, values);
      GolombListRoundTrip(s1, values[1..]);
      FirstReadsBack(s, values);
      ReadsOneMore(s'.bits, s.pos, values, s1.pos, s'.pos);
    }
  }

  /** WriteBits and ReadBits: what is read back is the low bits of what was written, and nothing else has changed. */
  lemma BitsRoundTrip(s: State, val: nat, n: nat)
    requires InRange(s) && n <= |s.bits| - s.pos
    ensures var s' := AfterWrite(s, val, n);
      && Value(s'.bits[s.pos..s.pos + n]) == val % Pow2(n)
      && forall k | 0 <= k < |s.bits| && !(s.pos <= k < s.pos + n) :: s'.bits[k] == s.bits[k]
  {
    WrittenReads(s.bits, s.pos, Low(val, n));
    ValueOfLow(val, n);
  }
}
