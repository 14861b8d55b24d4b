/** BitBuffer and BitBufferWriter of bitbuffer.cc. */
module BitBuffer {
  import opened Words
  import opened BitStream
  import Seqs

  // ----- Helpers of one byte -----

  /** byte & ((1 << n) - 1) */
  function LowestBits(b: Byte, n: nat): Byte
    requires n <= 8
  {
    And(b, Zeros(8 - n) + Ones(n))
  }

  /** (byte & mask) >> shift, where mask is 0xFF << shift in eight bits */
  function HighestBits(b: Byte, n: nat): Byte
    requires n <= 8
  {
    ShiftRight(And(b, ShiftLeft(Ones(8), 8 - n)), 8 - n)
  }

  /** (target & ~mask) | (source >> offset) */
  function WritePartialByte(source: Byte, n: nat, target: Byte, offset: nat): Byte
    requires offset < 8 && n <= 8 - offset
  {
    var mask := ShiftRight(ShiftLeft(Ones(8), 8 - n), offset);
    Or(And(target, Not(mask)), ShiftRight(source, offset))
  }

  lemma LowestBitsAre(b: Byte, n: nat)
    requires n <= 8
    ensures LowestBits(b, n) == Zeros(8 - n) + b[8 - n..]
  {
  }

  lemma HighestBitsAre(b: Byte, n: nat)
    requires n <= 8
    ensures HighestBits(b, n) == Zeros(8 - n) + b[..n]
  {
  }

  /** The source is not masked: the byte is right if and only if no bit of the source beyond the first `n` gets in
      where the target has none. */
  lemma WritePartialByteExactly(source: Byte, n: nat, target: Byte, offset: nat)
    requires offset < 8 && n <= 8 - offset
    ensures WritePartialByte(source, n, target, offset) == Written(target, offset, source[..n]) <==>
      forall j | n <= j < 8 - offset && source[j] :: target[offset + j]
  {
    var r, w := WritePartialByte(source, n, target, offset), Written(target, offset, source[..n]);
    forall k | 0 <= k < 8
      ensures r[k] == if offset + n <= k then target[k] || source[k - offset] else w[k]
    {
    }
    if r == w {
      forall j | n <= j < 8 - offset && source[j]
        ensures target[offset + j]
      {
        assert r[offset + j] == w[offset + j];
      }
    }
  }

  // ----- Reading into a 32-bit register -----

  /** The register holds the `m` bits at `pos`. */
  ghost predicate Gathered(bits: Bits, s: Bits, pos: nat, m: nat) {
    m <= 32 && pos + m <= |s| && bits == Zeros(32 - m) + s[pos..pos + m]
  }

  lemma GatherFirst(s: Bits, start: nat, b: Byte, offset: nat)
    requires At(s, start, b) && offset < 8
    ensures Gathered(Widen(LowestBits(b, 8 - offset), 32), s, start + offset, 8 - offset)
  {
    LowestBitsAre(b, 8 - offset);
    Seqs.Slice(s, start, start + 8, offset, 8);
    assert s[start..start + 8][offset..8] == b[offset..];
  }

  lemma PartBits(s: Bits, start: nat, b: Byte, offset: nat, n: nat)
    requires At(s, start, b) && offset + n < 8
    ensures HighestBits(LowestBits(b, 8 - offset), offset + n) == Zeros(8 - n) + s[start + offset..start + offset + n]
  {
    var low := LowestBits(b, 8 - offset);
    LowestBitsAre(b, 8 - offset);
    HighestBitsAre(low, offset + n);
    Seqs.Slice(s, start, start + 8, offset, offset + n);
  }

  /** Part of the first byte is enough. */
  lemma GatherPart(s: State, start: nat, b: Byte, offset: nat, n: nat)
    requires At(s.bits, start, b) && offset + n < 8 && s.pos == start + offset
    ensures Value(HighestBits(LowestBits(b, 8 - offset), offset + n)) == Peek(s, n)
  {
    PartBits(s.bits, start, b, offset, n);
    WideValue(HighestBits(LowestBits(b, 8 - offset), offset + n), 8 - n, s.bits[s.pos..s.pos + n]);
  }

  /** The two cases of PeekBits: the bits are in one byte, or the byte is the first of several. */
  lemma PeekInByte(data: seq<Byte>, i: nat, offset: nat, n: nat, pos: nat)
    requires i < |data| && offset + n < 8 && pos == 8 * i + offset && pos + n <= |Stream(data)|
    ensures Value(HighestBits(LowestBits(data[i], 8 - offset), offset + n)) == Peek(State(Stream(data), pos), n)
  {
    StreamAt(data, i);
    GatherPart(State(Stream(data), pos), 8 * i, data[i], offset, n);
  }

  lemma PeekFromByte(data: seq<Byte>, i: nat, offset: nat, pos: nat)
    requires i < |data| && offset < 8 && pos == 8 * i + offset
    ensures Gathered(Widen(LowestBits(data[i], 8 - offset), 32), Stream(data), pos, 8 - offset)
  {
    StreamAt(data, i);
    GatherFirst(Stream(data), 8 * i, data[i], offset);
  }

  /** Shifting the first `k` bits of the next byte in. */
  lemma GatherMore(bits: Bits, s: Bits, pos: nat, m: nat, b: Byte, k: nat)
    requires Gathered(bits, s, pos, m) && At(s, pos + m, b) && k <= 8 && m + k <= 32
    ensures Gathered(Or(ShiftLeft(bits, k), Widen(Zeros(8 - k) + b[..k], 32)), s, pos, m + k)
  {
    assert s[pos..pos + m + k] == s[pos..pos + m] + s[pos + m..pos + m + 8][..k];
  }

  /** A whole byte. */
  lemma GatherByte(bits: Bits, s: Bits, pos: nat, m: nat, b: Byte)
    requires Gathered(bits, s, pos, m) && At(s, pos + m, b) && m + 8 <= 32
    ensures Gathered(Or(ShiftLeft(bits, 8), Widen(b, 32)), s, pos, m + 8)
  {
    GatherMore(bits, s, pos, m, b, 8);
    assert Zeros(0) + b[..8] == b;
  }

  /** The last step of PeekBits, if there is one. */
  lemma GatherLast(bits: Bits, s: Bits, pos: nat, m: nat, b: Byte, k: nat)
    requires k < 8 && m + k <= 32 && Gathered(bits, s, pos, m) && At(s, pos + m, b)
    ensures Gathered(Or(ShiftLeft(bits, k), Widen(HighestBits(b, k), 32)), s, pos, m + k)
  {
    HighestBitsAre(b, k);
    GatherMore(bits, s, pos, m, b, k);
  }

  lemma GatheredValue(bits: Bits, s: State, n: nat)
    requires Gathered(bits, s.bits, s.pos, n)
    ensures Value(bits) == Peek(s, n)
  {
    WideValue(bits, 32 - n, s.bits[s.pos..s.pos + n]);
  }

  // ----- Writing from a 64-bit register -----

  /** The bits of `b` from `done` on are at the top of the register, and zeros below. */
  ghost predicate Pending(reg: Bits, b: Bits, done: nat) {
    done <= |b| && |b| - done <= 64 && reg == b[done..] + Zeros(64 - (|b| - done))
  }

  lemma PendingFirst(val: nat, n: nat)
    requires n <= 64
    ensures Pending(ShiftLeft(Low(val, 64), 64 - n), Low(val, n), 0)
  {
    LowOfLow(val, 64, n);
  }

  lemma PendingShift(reg: Bits, b: Bits, done: nat, k: nat)
    requires Pending(reg, b, done) && done + k <= |b|
    ensures Pending(ShiftLeft(reg, k), b, done + k)
  {
    assert Zeros(64 - (|b| - done)) + Zeros(k) == Zeros(64 - (|b| - (done + k)));
  }

  /** Either the byte is filled up, or the bits after those wanted are zeros. */
  lemma PendingByte(reg: Bits, b: Bits, done: nat, k: nat, target: Byte, offset: nat)
    requires Pending(reg, b, done) && offset < 8 && done + k <= |b|
    requires k == 8 - offset || (k < 8 - offset && done + k == |b|)
    ensures WritePartialByte(reg[..8], k, target, offset) == Written(target, offset, b[done..done + k])
  {
    WritePartialByteExactly(reg[..8], k, target, offset);
    assert reg[..8][..k] == b[done..done + k];
  }

  /** The stream after `done` bits of `b` have been written at `pos`, and after `k` more of them. */
  lemma WriteMore(start: Bits, s: Bits, pos: nat, b: Bits, done: nat, k: nat)
    requires done + k <= |b| && pos + |b| <= |start| && s == Written(start, pos, b[..done])
    ensures Written(s, pos + done, b[done..done + k]) == Written(start, pos, b[..done + k])
  {
    WrittenTwice(start, pos, b[..done], b[done..done + k]);
    assert b[..done] + b[done..done + k] == b[..done + k];
  }

  lemma PutPartWrites(reg: Bits, bytes: seq<Byte>, i: nat, offset: nat, k: nat, start: Bits, pos: nat, b: Bits,
                      done: nat)
    requires Pending(reg, b, done) && offset < 8 && done + k <= |b| && pos + |b| <= |start|
    requires k == 8 - offset || (k < 8 - offset && done + k == |b|)
    requires i < |bytes| && 8 * i + offset == pos + done && Stream(bytes) == Written(start, pos, b[..done])
    ensures Stream(bytes[i := WritePartialByte(reg[..8], k, bytes[i], offset)]) == Written(start, pos, b[..done + k])
  {
    PendingByte(reg, b, done, k, bytes[i], offset);
    StreamPutPart(bytes, i, offset, b[done..done + k]);
    WriteMore(start, Stream(bytes), pos, b, done, k);
  }

  /** Reader and writer over the same bytes: the writer is a reader, too. */
  class BitBuffer {
    const bytes: array<Byte>
    var byteOffset: nat
    var bitOffset: nat

    ghost predicate Valid()
      reads this
    {
      byteOffset <= bytes.Length && bitOffset < 8 && (byteOffset == bytes.Length ==> bitOffset == 0)
    }

    ghost function Now(): (s: State)
      requires Valid()
      reads this, bytes
      ensures InRange(s)
    {
      State(Stream(bytes[..]), 8 * byteOffset + bitOffset)
    }

    constructor (bytes: array<Byte>)
      ensures Valid() && this.bytes == bytes && Now() == State(Stream(bytes[..]), 0)
    {
      this.bytes := bytes;
      byteOffset, bitOffset := 0, 0;
    }

    function RemainingBitCount(): (n: int)
      requires Valid()
      reads this, bytes
      ensures n == |Now().bits| - Now().pos
    {
      (bytes.Length - byteOffset) * 8 - bitOffset
    }

    /** The next bits, as a number, without moving on. */
    method PeekBits(bitCount: nat) returns (ok: bool, val: nat)
      requires Valid() && (bitCount == 0 ==> byteOffset < bytes.Length)
      ensures ok <==> bitCount <= 32 && Now().pos + bitCount <= |Now().bits|
      ensures ok ==> val == Peek(Now(), bitCount)
    {
      if bitCount > RemainingBitCount() || bitCount > 32 {
        return false, 0;
      }
      var b, remaining := bytes[byteOffset], 8 - bitOffset;
      if bitCount < remaining {
        PeekInByte(bytes[..], byteOffset, bitOffset, bitCount, Now().pos);
        return true, Value(HighestBits(LowestBits(b, remaining), bitOffset + bitCount));
      }
      val := PeekFrom(Widen(LowestBits(b, remaining), 32), bitCount - remaining, bitCount);
      return true, val;
    }

    /** PeekBits where it takes all that is left of the first byte. */
    method PeekFrom(first: Bits, left: nat, ghost n: nat) returns (val: nat)
      requires Valid() && byteOffset < bytes.Length && n == 8 - bitOffset + left <= 32
      requires first == Widen(LowestBits(bytes[byteOffset], 8 - bitOffset), 32) && Now().pos + n <= |Now().bits|
      ensures val == Peek(Now(), n)
    {
      PeekFromByte(bytes[..], byteOffset, bitOffset, Now().pos);
      val := PeekRest(first, byteOffset + 1, left, Now(), n);
    }

    /** PeekBits from its second byte on: the last `left` of `n` bits. */
    method PeekRest(first: Bits, next: nat, left: nat, ghost now: State, ghost n: nat) returns (val: nat)
      requires left <= n <= 32 && 8 * next == now.pos + n - left && now.pos + n <= |now.bits|
      requires now.bits == Stream(bytes[..]) && Gathered(first, now.bits, now.pos, n - left)
      ensures val == Peek(now, n)
    {
      var bits, i, bitCount := first, next, left;
      ghost var got := n - left;
      while bitCount >= 8
        invariant 0 <= bitCount && got + bitCount == n && 8 * i == now.pos + got
        invariant Gathered(bits, now.bits, now.pos, got)
      {
        bits := ShiftByteIn(bits, i, now, got);
        i, bitCount, got := i + 1, bitCount - 8, got + 8;
      }
      if bitCount > 0 {
        bits := ShiftPartIn(bits, i, bitCount, now, got);
        got := n;
      }
      GatheredValue(bits, now, got);
      val := Value(bits);
    }

    /** bits = (bits << 8) | byte */
    method ShiftByteIn(bits: Bits, i: nat, ghost now: State, ghost got: nat) returns (bits': Bits)
      requires i < bytes.Length && now.bits == Stream(bytes[..]) && got + 8 <= 32
      requires 8 * i == now.pos + got && Gathered(bits, now.bits, now.pos, got)
      ensures Gathered(bits', now.bits, now.pos, got + 8)
    {
      StreamAt(bytes[..], i);
      GatherByte(bits, now.bits, now.pos, got, bytes[i]);
      bits' := Or(ShiftLeft(bits, 8), Widen(bytes[i], 32));
    }

    /** The last, partial byte. */
    method ShiftPartIn(bits: Bits, i: nat, bitCount: nat, ghost now: State, ghost got: nat) returns (bits': Bits)
      requires i < bytes.Length && now.bits == Stream(bytes[..]) && bitCount < 8 && got + bitCount <= 32
      requires 8 * i == now.pos + got && Gathered(bits, now.bits, now.pos, got)
      ensures Gathered(bits', now.bits, now.pos, got + bitCount)
    {
      StreamAt(bytes[..], i);
      GatherLast(bits, now.bits, now.pos, got, bytes[i], bitCount);
      bits' := Or(ShiftLeft(bits, bitCount), Widen(HighestBits(bytes[i], bitCount), 32));
    }

    method ConsumeBits(bitCount: nat) returns (ok: bool)
      requires Valid()
      modifies this
      ensures Valid() && ok == (bitCount <= old(RemainingBitCount()))
      ensures Now() == if ok then old(Now()).(pos := old(Now()).pos + bitCount) else old(Now())
    {
      if bitCount > RemainingBitCount() {
        return false;
      }
      byteOffset, bitOffset := byteOffset + (bitOffset + bitCount) / 8, (bitOffset + bitCount) % 8;
      return true;
    }

    method ReadBits(bitCount: nat) returns (ok: bool, val: nat)
      requires Valid() && (bitCount == 0 ==> byteOffset < bytes.Length)
      modifies this
      ensures Valid() && (ok <==> bitCount <= 32 && bitCount <= old(RemainingBitCount()))
      ensures Now() == if ok then old(Now()).(pos := old(Now()).pos + bitCount) else old(Now())
      ensures ok ==> val == Peek(old(Now()), bitCount)
    {
      ok, val := PeekBits(bitCount);
      if ok {
        ok := ConsumeBits(bitCount);
      }
    }

    /** Only a position in the buffer, or just behind it, can be sought. */
    method Seek(byteOffset: nat, bitOffset: nat) returns (ok: bool)
      requires Valid()
      modifies this
      ensures Valid()
      ensures ok <==> bitOffset < 8 && 8 * byteOffset + bitOffset <= 8 * bytes.Length
      ensures Now() == if ok then old(Now()).(pos := 8 * byteOffset + bitOffset) else old(Now())
    {
      if byteOffset > bytes.Length || bitOffset > 7 || (byteOffset == bytes.Length && bitOffset > 0) {
        return false;
      }
      this.byteOffset, this.bitOffset := byteOffset, bitOffset;
      return true;
    }

    /** Counts the zeros one at a time. */
    method SkipZeros() returns (zeroBitCount: nat)
      requires Valid()
      modifies this
      ensures Valid() && zeroBitCount == LeadingZeros(old(Now()).bits, old(Now()).pos)
      ensures Now() == old(Now()).(pos := old(Now()).pos + zeroBitCount)
    {
      ghost var s, pos := Now().bits, Now().pos;
      zeroBitCount := 0;
      var ok, bit := PeekBit();
      while ok && bit == 0
        invariant Valid() && Now() == State(s, pos + zeroBitCount)
        invariant LeadingZeros(s, pos) == zeroBitCount + LeadingZeros(s, pos + zeroBitCount)
        invariant ok <==> pos + zeroBitCount < |s|
        invariant ok ==> (bit == 0 <==> !s[pos + zeroBitCount])
        decreases |s| - zeroBitCount, ok
      {
        zeroBitCount := zeroBitCount + 1;
        var consumed := ConsumeBits(1);
        ok, bit := PeekBit();
      }
    }

    method PeekBit() returns (ok: bool, bit: nat)
      requires Valid()
      ensures ok <==> Now().pos < |Now().bits|
      ensures ok ==> bit == if Now().bits[Now().pos] then 1 else 0
    {
      ok, bit := PeekBits(1);
      if ok {
        PeekOne(Now());
      }
    }

    /** Counts the zeros, then reads as many digits and one more.  A failing read goes back. */
    method ReadExponentialGolomb() returns (ok: bool, val: nat)
      requires Valid()
      modifies this
      ensures Valid() && Now() == AfterReadGolomb(old(Now()))
      ensures ok == GolombAt(old(Now())).Decoded? && (ok ==> val == GolombAt(old(Now())).value)
    {
      var originalByteOffset, originalBitOffset := byteOffset, bitOffset;
      ghost var start := Now();
      var zeroBitCount := SkipZeros();
      var valueBitCount := zeroBitCount + 1;
      ok := valueBitCount <= 32;
      if ok {
        ok, val := ReadBits(valueBitCount);
      }
      if !ok {
        NoDigits(start, zeroBitCount);
        var sought := Seek(originalByteOffset, originalBitOffset);
        assert sought;
        return false, 0;
      }
      GolombByDigits(start, zeroBitCount, val);
      val := val - 1;
    }

    method ReadSignedExponentialGolomb() returns (ok: bool, val: int)
      requires Valid()
      modifies this
      ensures Valid() && Now() == AfterReadGolomb(old(Now()))
      ensures ok == GolombAt(old(Now())).Decoded?
      ensures ok ==> val == Signed(GolombAt(old(Now())).value) && -INT32_MAX <= val <= INT32_MAX
    {
      ghost var start := Now();
      var unsigned;
      ok, unsigned := ReadExponentialGolomb();
      if !ok {
        return false, 0;
      }
      GolombDoesNotWrap(start.bits, start.pos);
      val := if unsigned % 2 == 0 then -(unsigned as int / 2) else (unsigned + 1) / 2;
    }

    /** The low bits of `val` go to the next bits of the buffer; nothing else changes. */
    method WriteBits(val: nat, bitCount: nat) returns (ok: bool)
      requires Valid() && 1 <= bitCount <= 64
      modifies this, bytes
      ensures Valid() && ok == (bitCount <= old(RemainingBitCount()))
      ensures Now() == AfterWrite(old(Now()), val, bitCount)
    {
      if bitCount > RemainingBitCount() {
        return false;
      }
      PutBits(val, bitCount);
      ok := ConsumeBits(bitCount);
    }

    /** WriteBits but for the new position. */
    method PutBits(val: nat, bitCount: nat)
      requires Valid() && 1 <= bitCount <= 64 && bitCount <= RemainingBitCount()
      modifies bytes
      ensures Valid() && Now() == old(Now()).(bits := Written(old(Now()).bits, old(Now()).pos, Low(val, bitCount)))
    {
      ghost var start, pos, b := Now().bits, Now().pos, Low(val, bitCount);
      var reg := ShiftLeft(Low(val, 64), 64 - bitCount);
      PendingFirst(val, bitCount);
      var remaining := 8 - bitOffset;
      var inFirst := if bitCount < remaining then bitCount else remaining;
      PutPart(reg, byteOffset, bitOffset, inFirst, start, pos, b, 0);
      if bitCount > remaining {
        PendingShift(reg, b, 0, inFirst);
        WriteRest(ShiftLeft(reg, inFirst), byteOffset + 1, bitCount - inFirst, start, pos, b);
      }
      assert b[..bitCount] == b;
    }

    /** WriteBits from its second byte on: the last `left` bits of `b`. */
    method WriteRest(val: Bits, next: nat, left: nat, ghost start: Bits, ghost pos: nat, ghost b: Bits)
      requires left <= |b| && 8 * next == pos + |b| - left && pos + |b| <= 8 * bytes.Length
      requires Pending(val, b, |b| - left) && WrittenSoFar(start, pos, b, |b| - left)
      modifies bytes
      ensures WrittenSoFar(start, pos, b, |b|)
    {
      var reg, i, bitCount := val, next, left;
      ghost var done := |b| - left;
      while bitCount >= 8
        invariant done + bitCount == |b| && 8 * i == pos + done
        invariant Pending(reg, b, done) && WrittenSoFar(start, pos, b, done)
      {
        PutByte(reg, i, start, pos, b, done);
        PendingShift(reg, b, done, 8);
        reg := ShiftLeft(reg, 8);
        i, bitCount, done := i + 1, bitCount - 8, done + 8;
      }
      if bitCount > 0 {
        PutPart(reg, i, 0, bitCount, start, pos, b, done);
      }
    }

    /** The first `done` bits of `b` have been written at `pos` over `start`. */
    ghost predicate WrittenSoFar(start: Bits, pos: nat, b: Bits, done: nat)
      reads bytes
    {
      done <= |b| && pos + |b| <= |start| && Stream(bytes[..]) == Written(start, pos, b[..done])
    }

    /** Stores the first `k` bits of the register in one byte. */
    method PutPart(reg: Bits, i: nat, offset: nat, k: nat,
                   ghost start: Bits, ghost pos: nat, ghost b: Bits, ghost done: nat)
      requires Pending(reg, b, done) && offset < 8 && done + k <= |b|
      requires k == 8 - offset || (k < 8 - offset && done + k == |b|)
      requires i < bytes.Length && 8 * i + offset == pos + done && WrittenSoFar(start, pos, b, done)
      modifies bytes
      ensures WrittenSoFar(start, pos, b, done + k)
    {
      PutPartWrites(reg, bytes[..], i, offset, k, start, pos, b, done);
      ghost var before := bytes[..];
      bytes[i] := WritePartialByte(reg[..8], k, bytes[i], offset);
      assert bytes[..] == before[i := bytes[i]];
    }

    /** Stores the first eight bits of the register. */
    method PutByte(reg: Bits, i: nat, ghost start: Bits, ghost pos: nat, ghost b: Bits, ghost done: nat)
      requires Pending(reg, b, done) && done + 8 <= |b|
      requires i < bytes.Length && 8 * i == pos + done && WrittenSoFar(start, pos, b, done)
      modifies bytes
      ensures WrittenSoFar(start, pos, b, done + 8)
    {
      assert reg[..8] == b[done..done + 8] == Written(bytes[i], 0, b[done..done + 8]);
      StreamPutPart(bytes[..], i, 0, b[done..done + 8]);
      WriteMore(start, Stream(bytes[..]), pos, b, done, 8);
      ghost var before := bytes[..];
      bytes[i] := reg[..8];
      assert bytes[..] == before[i := bytes[i]];
    }

    method WriteExponentialGolomb(val: nat) returns (ok: bool)
      requires Valid() && val <= UINT32_MAX
      modifies this, bytes
      ensures Valid() && ok == CanWriteGolomb(old(Now()), val) && Now() == AfterGolomb(old(Now()), val)
    {
      if val == UINT32_MAX {
        return false;
      }
      CodeIsLow(val);
      var n := CountBits(val + 1);
      ok := WriteBits(val + 1, 2 * n - 1);
    }
  }

  /** Halves until nothing is left. */
  method CountBits(val: nat) returns (n: nat)
    ensures n == Length(val)
  {
    n := 0;
    var v := val;
    while v != 0
      invariant n + Length(v) == Length(val)
    {
      n := n + 1;
      v := v / 2;
    }
  }
}
