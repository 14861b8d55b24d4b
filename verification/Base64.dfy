/** The encoder and the decoder of base64.cc. */
module Base64 {
  import opened Base64Codec
  import Seqs

  // ----- EncodeFromArray -----

  /** The four characters that stand for the first group of `x`. */
  function FirstFour(x: seq<Octet>): (s: string)
    requires x != []
    ensures |s| == 4
  {
    var b := if |x| > 1 then x[1] else 0;
    var c := if |x| > 2 then x[2] else 0;
    [Letter(x[0] / 4), Letter(x[0] % 4 * 16 + b / 16),
     if |x| > 1 then Letter(b % 16 * 4 + c / 64) else '=',
     if |x| > 2 then Letter(c % 64) else '=']
  }

  lemma EncodeFirst(x: seq<Octet>)
    requires x != []
    ensures Encode(x) == FirstFour(x) + Encode(x[if |x| < 3 then |x| else 3..])
  {
  }

  lemma {:induction false} EncodeLength(x: seq<Octet>)
    ensures |Encode(x)| == (|x| + 2) / 3 * 4
  {
    if |x| >= 3 {
      EncodeLength(x[3..]);
    }
  }

  method EncodeFromArray(data: seq<Octet>) returns (result: array<char>)
    ensures fresh(result) && result[..] == Encode(data)
  {
    EncodeLength(data);
    result := new char[(|data| + 2) / 3 * 4](_ => '\0');
    var i, dest := 0, 0;
    while i < |data|
      invariant i <= |data| && dest <= result.Length
      invariant result[..dest] + Encode(data[i..]) == Encode(data)
    {
      EncodeFirst(data[i..]);
      EncodeLength(data[i..]);
      ghost var start := i;
      i := EncodeGroup(data, i, result, dest);
      assert data[start..][if |data[start..]| < 3 then |data[start..]| else 3..] == data[i..];
      assert result[..dest + 4] == result[..dest] + FirstFour(data[start..]);
      Seqs.Assoc(result[..dest], FirstFour(data[start..]), Encode(data[i..]));
      dest := dest + 4;
    }
    assert result[..dest] + "" == result[..dest];
  }

  /** One round of the encoder's loop. */
  method EncodeGroup(data: seq<Octet>, start: nat, result: array<char>, dest: nat) returns (i: nat)
    requires start < |data| && dest + 4 <= result.Length
    modifies result
    ensures i == if start + 3 <= |data| then start + 3 else |data|
    ensures result[..dest] == old(result[..dest])
    ensures result[dest..dest + 4] == FirstFour(data[start..])
  {
    i := start;
    var c: nat := data[i] / 4;
    result[dest] := Letter(c);

    c := data[i] % 4 * 16;
    i := i + 1;
    if i < |data| {
      c := c + data[i] / 16;
    }
    result[dest + 1] := Letter(c);

    i := EncodeRest(data, i, result, dest + 2);
    assert result[dest..dest + 4] == result[dest..dest + 2] + result[dest + 2..dest + 4];
  }

  /** The second half of a round: a letter, or the padding, for each of the two bytes from `start` on. */
  method EncodeRest(data: seq<Octet>, start: nat, result: array<char>, dest: nat) returns (i: nat)
    requires start <= |data| && dest + 2 <= result.Length
    modifies result
    ensures i == if start + 2 <= |data| then start + 2 else |data|
    ensures result[..dest] == old(result[..dest])
    ensures start == |data| ==> result[dest] == '='
    ensures start < |data| ==>
      result[dest] == Letter(data[start] % 16 * 4 + if start + 1 < |data| then data[start + 1] / 64 else 0)
    ensures result[dest + 1] == if start + 1 < |data| then Letter(data[start + 1] % 64) else '='
  {
    i := start;
    if i < |data| {
      var c: nat := data[i] % 16 * 4;
      i := i + 1;
      if i < |data| {
        c := c + data[i] / 64;
      }
      result[dest] := Letter(c);
    } else {
      result[dest] := '=';
    }

    if i < |data| {
      var c := data[i] % 64;
      result[dest + 1] := Letter(c);
      i := i + 1;
    } else {
      result[dest + 1] := '=';
    }
  }

  // ----- GetNextQuantum and DecodeFromArray -----

  /** Collects up to four 6-bit groups into `qbuf`. */
  method GetNextQuantum(f: Flags, data: string, start: nat, qbuf: array<Octet>)
    returns (byteLen: nat, dpos: nat, padded: bool)
    requires start <= |data| && qbuf.Length == 4
    modifies qbuf
    ensures var at := ScanFrom(f, data, ScanStart(start));
      byteLen == |at.q| && dpos == EndPos(at) && padded == Padded(at) && |at.q| <= 4 && qbuf[..] == Filled(at.q)
  {
    var padLen, padStart: nat := 0, 0;
    byteLen, dpos := 0, start;
    ghost var q: seq<Sextet> := [];
    while byteLen < 4 && dpos < |data|
      invariant |q| == byteLen <= 4 && dpos <= |data| && qbuf[..byteLen] == q
      invariant ScanFrom(f, data, Scan(dpos, q, padLen, padStart)) == ScanFrom(f, data, ScanStart(start))
      decreases |data| - dpos
    {
      qbuf[byteLen] := Code(data[dpos]);
      if qbuf[byteLen] == IL || (f.pad.PadNo? && qbuf[byteLen] == PD) {
        if f.parse != Any {
          break;
        }
      } else if qbuf[byteLen] == SP {
        if f.parse == Strict {
          break;
        }
      } else if qbuf[byteLen] == PD {
        if byteLen < 2 {
          if f.parse != Any {
            break;
          }
        } else if byteLen + padLen >= 4 {
          if f.parse != Any {
            break;
          }
        } else {
          padLen := padLen + 1;
          if padLen == 1 {
            padStart := dpos;
          }
        }
      } else {
        if padLen > 0 {
          if f.parse != Any {
            break;
          }
          padLen := 0;
        }
        q := q + [qbuf[byteLen]];
        byteLen := byteLen + 1;
      }
      dpos := dpos + 1;
    }
    assert ScanFrom(f, data, ScanStart(start)) == Scan(dpos, q, padLen, padStart);
    ClearRest(qbuf, byteLen, q);
    padded := byteLen + padLen == 4;
    if !padded && padLen > 0 {
      dpos := padStart;
    }
  }

  method ClearRest(qbuf: array<Octet>, byteLen: nat, ghost q: seq<Sextet>)
    requires qbuf.Length == 4 && |q| == byteLen <= 4 && qbuf[..byteLen] == q
    modifies qbuf
    ensures qbuf[..] == Filled(q)
  {
    var i := byteLen;
    while i < 4
      invariant byteLen <= i <= 4 && qbuf[..i] == q + [0, 0, 0, 0][..i - byteLen]
    {
      qbuf[i] := 0;
      i := i + 1;
    }
  }

  method DecodeFromArray(f: Flags, data: string) returns (success: bool, result: seq<Octet>, dataUsed: nat)
    ensures Decode(f, data) == Decoded(result, success, dataUsed)
  {
    result := [];
    success := true;
    var dpos := 0;
    var qbuf := new Octet[4](_ => 0);
    while dpos < |data|
      invariant dpos <= |data| && success
      invariant Decode(f, data) == Decoded(result + DecodeFrom(f, data, dpos).bytes,
                                           DecodeFrom(f, data, dpos).success, DecodeFrom(f, data, dpos).used)
    {
      var qlen, padded;
      ghost var start, before := dpos, result;
      QuantumInBounds(f, data, dpos);
      qlen, dpos, padded := GetNextQuantum(f, data, dpos, qbuf);
      ghost var at := ScanFrom(f, data, ScanStart(start));
      var c;
      result, c := PushBytes(qbuf, qlen, result, at.q);
      if qlen < 4 {
        if f.term != TermAny && c != 0 {
          success := false;
        }
        if f.pad == PadYes && !padded {
          success := false;
        }
        break;
      }
      Seqs.Assoc(before, Bytes(at.q), DecodeFrom(f, data, dpos).bytes);
    }
    if f.term == TermBuffer && dpos != |data| {
      success := false;
    }
    dataUsed := dpos;
  }

  /** The bytes of one quantum, and what is left over. */
  method PushBytes(qbuf: array<Octet>, qlen: nat, before: seq<Octet>, ghost q: seq<Sextet>)
    returns (result: seq<Octet>, c: Octet)
    requires qbuf.Length == 4 && qlen == |q| <= 4 && qbuf[..] == Filled(q)
    ensures result == before + Bytes(q) && c == LeftOver(q)
  {
    assert forall i | 0 <= i < 4 :: qbuf[i] == Filled(q)[i];
    result := before;
    c := qbuf[0] * 4 + qbuf[1] / 16;
    if qlen >= 2 {
      result := result + [c];
      c := qbuf[1] % 16 * 16 + qbuf[2] / 4;
      if qlen >= 3 {
        result := result + [c];
        c := qbuf[2] % 4 * 64 + qbuf[3];
        if qlen >= 4 {
          result := result + [c];
          c := 0;
        }
      }
    }
  }
}
