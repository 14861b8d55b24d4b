/** The names that FileRotatingStream gives its files, and the order in which a reader finds them. */
module FileNames {
  import opened DecimalText
  import Seqs

  /** The order of std::string: the one std::sort uses. */
  predicate Before(a: string, b: string) {
    if b == "" then false
    else if a == "" then true
    else if a[0] != b[0] then a[0] < b[0]
    else Before(a[1..], b[1..])
  }

  lemma {:induction false} BeforeTransitive(a: string, b: string, c: string)
    requires Before(a, b) && Before(b, c)
    ensures Before(a, c)
  {
    if a != "" && a[0] == b[0] == c[0] {
      BeforeTransitive(a[1..], b[1..], c[1..]);
    }
  }

  lemma {:induction false} BeforeTotal(a: string, b: string)
    ensures a == b || Before(a, b) || Before(b, a)
  {
    if a != "" && b != "" && a[0] == b[0] {
      BeforeTotal(a[1..], b[1..]);
      assert a == [a[0]] + a[1..] && b == [b[0]] + b[1..];
    }
  }

  lemma {:induction false} BeforeIrreflexive(a: string)
    ensures !Before(a, a)
  {
    if a != "" {
      BeforeIrreflexive(a[1..]);
    }
  }

  lemma {:induction false} BeforeCommonPrefix(p: string, a: string, b: string)
    requires Before(a, b)
    ensures Before(p + a, p + b)
  {
    if p == "" {
      assert p + a == a && p + b == b;
    } else {
      BeforeCommonPrefix(p[1..], a, b);
      assert (p + a)[1..] == p[1..] + a && (p + b)[1..] == p[1..] + b;
    }
  }

  function ZeroDigits(n: nat): (s: string)
    ensures |s| == n
  {
    if n == 0 then "" else "0" + ZeroDigits(n - 1)
  }

  /** "The number of digits" of an index, as the source computes it: it is a digit count only below 20. */
  function Digits(index: nat): nat {
    index / 10 + 1
  }

  /** GetFilePath: `path` is the directory and the prefix. */
  function FilePath(path: string, index: nat, numFiles: nat): string
    requires index < numFiles
  {
    path + "_" + (ZeroDigits(Digits(numFiles - 1) - Digits(index)) + Decimal(index))
  }

  lemma {:induction false} ZeroDigitsSplit(n: nat, k: nat)
    requires k <= n
    ensures ZeroDigits(n) == ZeroDigits(k) + ZeroDigits(n - k)
  {
    if k > 0 {
      ZeroDigitsSplit(n - 1, k - 1);
    }
  }

  /** GetFilePath, which pads in a loop. */
  method GetFilePath(path: string, index: nat, numFiles: nat) returns (name: string)
    requires index < numFiles
    ensures name == FilePath(path, index, numFiles)
  {
    var padding := Digits(numFiles - 1) - Digits(index);
    name := path + "_";
    var i := 0;
    while i < padding
      invariant i <= padding && name == path + "_" + ZeroDigits(i)
    {
      name := name + "0";
      ZeroDigitsSplit(i + 1, i);
      assert ZeroDigits(1) == "0";
      Seqs.Assoc(path + "_", ZeroDigits(i), "0");
      i := i + 1;
    }
    Seqs.Assoc(path + "_", ZeroDigits(padding), Decimal(index));
    name := name + Decimal(index);
  }

  predicate AllZeros(s: string) {
    forall i | 0 <= i < |s| :: s[i] == '0'
  }

  lemma {:induction false} ZeroDigitsAre(n: nat, s: string)
    ensures s == ZeroDigits(n) <==> |s| == n && AllZeros(s)
    decreases n
  {
    if n > 0 {
      if s != "" {
        ZeroDigitsAre(n - 1, s[1..]);
        assert s == [s[0]] + s[1..];
      }
      ZeroDigitsAre(n - 1, ZeroDigits(n - 1));
    }
  }

  /** A name is directory and prefix, an underscore, as many zeros as the tens of the last index exceed those of this
      one, and the numeral of the index. */
  lemma NameIs(path: string, index: nat, numFiles: nat, name: string)
    requires index < numFiles
    ensures name == FilePath(path, index, numFiles) <==>
      exists zeros, numeral :: IsName(path, index, numFiles, name, zeros, numeral)
  {
    var padding := (numFiles - 1) / 10 - index / 10;
    if name == FilePath(path, index, numFiles) {
      ZeroDigitsAre(padding, ZeroDigits(padding));
      DecimalIs(index, Decimal(index));
      assert IsName(path, index, numFiles, name, ZeroDigits(padding), Decimal(index));
    }
    if zeros, numeral :| IsName(path, index, numFiles, name, zeros, numeral) {
      ZeroDigitsAre(padding, zeros);
      DecimalIs(index, numeral);
    }
  }

  predicate IsName(path: string, index: nat, numFiles: nat, name: string, zeros: string, numeral: string) {
    && index < numFiles && name == path + "_" + (zeros + numeral)
    && AllZeros(zeros) && |zeros| == (numFiles - 1) / 10 - index / 10
    && IsNumeral(numeral) && Numeral(numeral) == index
  }

  ghost predicate NamesOf(path: string, names: seq<string>) {
    forall i | 0 <= i < |names| :: names[i] == FilePath(path, i, |names|)
  }

  method GetFilePaths(path: string, numFiles: nat) returns (names: seq<string>)
    ensures |names| == numFiles && NamesOf(path, names)
  {
    names := [];
    while |names| < numFiles
      invariant |names| <= numFiles && forall i | 0 <= i < |names| :: names[i] == FilePath(path, i, numFiles)
    {
      var name := GetFilePath(path, |names|, numFiles);
      names := names + [name];
    }
  }

  lemma HeadDecides(a: string, b: string)
    requires a != "" && b != "" && a[0] < b[0]
    ensures Before(a, b)
  {
  }

  lemma SameTens(i: nat, j: nat)
    requires i < j && i / 10 == j / 10
    ensures Before(Decimal(i), Decimal(j))
  {
    var tens := if i < 10 then "" else Decimal(i / 10);
    var a, b := ['0' + (i % 10) as char], ['0' + (j % 10) as char];
    assert Decimal(i) == tens + a && Decimal(j) == tens + b;
    HeadDecides(a, b);
    BeforeCommonPrefix(tens, a, b);
  }

  lemma MoreZeroDigits(i: nat, j: nat, padI: nat, padJ: nat)
    requires 0 < j && padJ < padI
    ensures Before(ZeroDigits(padI) + Decimal(i), ZeroDigits(padJ) + Decimal(j))
  {
    var rest := ZeroDigits(padI - padJ) + Decimal(i);
    DecimalMeans(j);
    HeadDecides(rest, Decimal(j));
    BeforeCommonPrefix(ZeroDigits(padJ), rest, Decimal(j));
    ZeroDigitsSplit(padI, padJ);
    Seqs.Assoc(ZeroDigits(padJ), ZeroDigits(padI - padJ), Decimal(i));
  }

  /** Although the padding is not computed from the digits of the index, the names sort in index order. */
  lemma NamesInOrder(path: string, i: nat, j: nat, numFiles: nat)
    requires i < j < numFiles
    ensures Before(FilePath(path, i, numFiles), FilePath(path, j, numFiles))
  {
    var padI, padJ := Digits(numFiles - 1) - Digits(i), Digits(numFiles - 1) - Digits(j);
    if i / 10 == j / 10 {
      SameTens(i, j);
      BeforeCommonPrefix(ZeroDigits(padI), Decimal(i), Decimal(j));
    } else {
      MoreZeroDigits(i, j, padI, padJ);
    }
    BeforeCommonPrefix(path + "_", ZeroDigits(padI) + Decimal(i), ZeroDigits(padJ) + Decimal(j));
  }

  predicate Sorted(names: seq<string>) {
    forall i, j | 0 <= i < j < |names| :: Before(names[i], names[j])
  }

  predicate SameNames(a: seq<string>, b: seq<string>) {
    (forall x | x in a :: x in b) && (forall x | x in b :: x in a)
  }

  /** A set of names can be sorted in one way only. */
  lemma {:induction false} SortedIsUnique(a: seq<string>, b: seq<string>)
    requires Sorted(a) && Sorted(b) && SameNames(a, b)
    ensures a == b
  {
    assert |a| > 0 ==> a[0] in a;
    assert |b| > 0 ==> b[0] in b;
    if a != [] {
      FirstIsLeast(a, b);
      FirstIsLeast(b, a);
      BeforeTotal(a[0], b[0]);
      SameTails(a, b);
      SortedIsUnique(a[1..], b[1..]);
      assert a == [a[0]] + a[1..] && b == [b[0]] + b[1..];
    }
  }

  lemma FirstIsLeast(a: seq<string>, b: seq<string>)
    requires a != [] && b != [] && Sorted(a) && SameNames(a, b)
    ensures !Before(b[0], a[0])
  {
    assert b[0] in b;
    var k :| 0 <= k < |a| && a[k] == b[0];
    if Before(b[0], a[0]) {
      if k > 0 {
        BeforeTransitive(a[0], a[k], a[0]);
      }
      BeforeIrreflexive(a[0]);
    }
  }

  lemma SameTails(a: seq<string>, b: seq<string>)
    requires a != [] && b != [] && Sorted(a) && Sorted(b) && a[0] == b[0]
    requires SameNames(a, b)
    ensures SameNames(a[1..], b[1..])
  {
    TailIsOthers(a);
    TailIsOthers(b);
  }

  lemma TailIsOthers(a: seq<string>)
    requires a != [] && Sorted(a)
    ensures forall x :: x in a[1..] <==> x in a && x != a[0]
  {
    BeforeIrreflexive(a[0]);
    assert a == [a[0]] + a[1..];
    forall x | x in a[1..]
      ensures x != a[0]
    {
      var k :| 0 <= k < |a[1..]| && a[1..][k] == x;
      assert Before(a[0], a[k + 1]);
    }
  }
}
