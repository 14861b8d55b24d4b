/** The table-driven CRC-32 of crc32.cc. */
module Crc32 {
  import Arithmetic
  import opened Words
  import opened CrcCode

  /** The first `n` entries are as they should be. */
  ghost predicate Filled(table: seq<Word>, n: nat) {
    n <= |table| && forall i | 0 <= i < n :: table[i] == Entry(Low(i, 8))
  }

  lemma FillOne(table: seq<Word>, n: nat, c: Word)
    requires Filled(table, n) && n < |table| && c == Entry(Low(n, 8))
    ensures Filled(table[n := c], n + 1)
  {
    forall i | 0 <= i <= n
      ensures table[n := c][i] == Entry(Low(i, 8))
    {
      assert i < n ==> table[i] == Entry(Low(i, 8));
    }
  }

  lemma EntryAt(table: seq<Word>, i: nat)
    requires Filled(table, 256) && i < 256
    ensures table[i] == Entry(Low(i, 8))
  {
  }

  /** A filled table is known by its last entry, which is not zero. */
  lemma FilledIsKnown(table: seq<Word>)
    requires |table| == 256 && Filled(table, 256)
    ensures table[255] != Zeros(32)
  {
    LastEntry();
    EntryAt(table, 255);
  }

  class Crc32 {
    const table: array<Word>

    /** Before the first use the table is blank, then it is filled. */
    ghost predicate Valid()
      reads table
    {
      table.Length == 256 && (Filled(table[..], 256) || table[255] == Zeros(32))
    }

    constructor ()
      ensures Valid() && fresh(table)
    {
      table := new Word[256](_ => Zeros(32));
    }

    /** Fills the table at its first use, and then leaves it alone. */
    method EnsureTableInited()
      requires Valid()
      modifies table
      ensures table.Length == 256 && Filled(table[..], 256)
      ensures old(Filled(table[..], 256)) ==> table[..] == old(table[..])
    {
      if Filled(table[..], 256) {
        FilledIsKnown(table[..]);
      }
      if table[255] != Zeros(32) {
        return;
      }
      var i := 0;
      while i < 256
        invariant i <= 256 && Filled(table[..], i)
      {
        var c := MakeEntry(i);
        FillOne(table[..], i, c);
        ghost var before := table[..];
        table[i] := c;
        assert table[..] == before[i := c];
        i := i + 1;
      }
    }

    method UpdateCrc32(start: Word, buf: seq<Byte>) returns (crc: Word)
      requires Valid()
      modifies table
      ensures table.Length == 256 && Filled(table[..], 256) && crc == Crc(start, buf)
    {
      EnsureTableInited();
      var c: Word := Xor(start, Ones(32));
      assert c == Not(start);
      var i := 0;
      while i < |buf|
        invariant table.Length == 256 && Filled(table[..], 256)
        invariant i <= |buf| && c == Feed(Not(start), MessageBits(buf[..i]))
      {
        ByteFed(Not(start), buf, i);
        c := Update(c, buf[i]);
        i := i + 1;
      }
      assert buf[..i] == buf;
      crc := Xor(c, Ones(32));
      assert crc == Not(c);
    }

    /** One round of the loop. */
    method Update(c: Word, u: Byte) returns (c': Word)
      requires table.Length == 256 && Filled(table[..], 256)
      ensures c' == FeedByte(c, u)
    {
      var index := Value(And(Xor(c, Widen(u, 32)), Zeros(24) + Ones(8)));
      IndexIsLow(c, u);
      EntryAt(table[..], index);
      c' := Xor(table[index], ShiftRight(c, 8));
    }
  }

  /** One entry of the table: eight steps from `i`. */
  method MakeEntry(i: nat) returns (c: Word)
    requires i < 256
    ensures c == Entry(Low(i, 8))
  {
    c := StepEightTimes(Low(i, 32));
    WideLow(i);
  }

  /** The inner loop. */
  method StepEightTimes(start: Word) returns (c: Word)
    ensures c == Steps(start, 8)
  {
    c := start;
    var j := 0;
    while j < 8
      invariant j <= 8 && Steps(c, 8 - j) == Steps(start, 8)
    {
      StepsFirst(c, 8 - j);
      if c[31] {
        c := Xor(POLYNOMIAL, ShiftRight(c, 1));
      } else {
        c := ShiftRight(c, 1);
      }
      j := j + 1;
    }
  }

  lemma LastEntry()
    ensures Entry(Low(255, 8)) != Zeros(32)
  {
    assert Low(255, 8)[7];
    EntryNotZero(Low(255, 8));
  }

  /** The loop counter as a word is the widened byte. */
  lemma WideLow(i: nat)
    requires i < 256
    ensures Low(i, 32) == Widen(Low(i, 8), 32)
  {
    assert Arithmetic.Pow2(8) == 256;
    LowOfSmall(i, 8, 24);
  }

  /** The index into the table is the low byte of c ^ u. */
  lemma IndexIsLow(c: Word, u: Byte)
    ensures var index := Value(And(Xor(c, Widen(u, 32)), Zeros(24) + Ones(8)));
      index < 256 && Low(index, 8) == Xor(c[24..], u)
  {
    var low := Xor(c[24..], u);
    assert And(Xor(c, Widen(u, 32)), Zeros(24) + Ones(8)) == Zeros(24) + low;
    ValueOfWide(24, low);
    LowOfValue(low);
    assert Arithmetic.Pow2(8) == 256;
  }

  lemma ByteFed(c: Word, buf: seq<Byte>, i: nat)
    requires i < |buf|
    ensures Feed(c, MessageBits(buf[..i + 1])) == FeedByte(Feed(c, MessageBits(buf[..i])), buf[i])
  {
    assert buf[..i + 1] == buf[..i] + [buf[i]];
    MessageBitsAppend(buf[..i], [buf[i]]);
    assert MessageBits([buf[i]]) == LowFirst(buf[i]) + MessageBits([]) == LowFirst(buf[i]);
    FeedAppend(c, MessageBits(buf[..i]), LowFirst(buf[i]));
    FeedByteIsFeed(Feed(c, MessageBits(buf[..i])), buf[i]);
  }
}
