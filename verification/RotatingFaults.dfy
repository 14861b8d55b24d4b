/** What becomes of the log when a write fails: the count of the bytes in file 0 may then be wrong. */
module RotatingFaults {
  import opened Arithmetic
  import opened RotatingLog
  import opened Seqs

  /** A log and current_bytes_written_. */
  datatype Tallied = Tallied(log: Log, count: nat)

  /** The settings and the number of files, which depend on the number of rotations alone. */
  ghost predicate Shaped(log: Log) {
    && log.numFiles > 1 && |log.disk| == Min(log.rotations, log.numFiles - 1) + 1
    && match log.kind
      case Plain => log.rotationIndex == log.numFiles - 1 && log.maxFileSize > 0
      case CallSession(total) =>
        && total >= 4 && log.numFiles == NumRotatingLogFiles(total) + 1
        && log.maxFileSize == (if log.rotations == 0 then total / 2 else RotatingLogSize(total))
        && log.rotationIndex == (if log.rotations < log.numFiles - 1 then log.numFiles - 1 else log.numFiles - 2)
  }

  ghost predicate Sound(t: Tallied) {
    Shaped(t.log) && t.count < t.log.maxFileSize
  }

  lemma RotationKeepsShape(log: Log)
    requires Shaped(log)
    ensures Shaped(AfterRotation(log)) && AfterRotation(log).all == log.all && AfterRotation(log).kind == log.kind
  {
  }

  lemma InvShaped(log: Log)
    requires Inv(log)
    ensures Shaped(log) && |log.disk[0]| < log.maxFileSize
  {
  }

  /** What the current file is offered of `data`. */
  function Offered(t: Tallied, data: string): string
    requires t.count <= t.log.maxFileSize
  {
    data[..Min(|data|, t.log.maxFileSize - t.count)]
  }

  lemma TakenIsOffered(t: Tallied, data: string, n: nat)
    requires t.count <= t.log.maxFileSize && n <= |Offered(t, data)|
    ensures Offered(t, data[..n]) == data[..n]
  {
  }

  /** After a write of which the file has taken what it was offered. */
  ghost function Wrote(t: Tallied, data: string): (t': Tallied)
    requires Sound(t)
    ensures Sound(t') && t'.log.all == t.log.all + Offered(t, data)
    ensures t'.log.kind == t.log.kind && t'.log.numFiles == t.log.numFiles
  {
    var d := Offered(t, data);
    var log' := t.log.(disk := Appended(t.log.disk, d), all := t.log.all + d);
    RotationKeepsShape(log');
    if t.count + |d| >= log'.maxFileSize then Tallied(AfterRotation(log'), 0) else Tallied(log', t.count + |d|)
  }

  /** After a write of which it has taken nothing: `before` is added to the count all the same. */
  ghost function Failed(t: Tallied, before: nat): (t': Tallied)
    requires Sound(t)
    ensures Sound(t') && t'.log.all == t.log.all
  {
    RotationKeepsShape(t.log);
    if t.count + before >= t.log.maxFileSize then Tallied(AfterRotation(t.log), 0) else Tallied(t.log, t.count + before)
  }

  ghost function Run(t: Tallied, pieces: seq<string>): (t': Tallied)
    requires Sound(t)
    ensures Sound(t') && t'.log.kind == t.log.kind && t'.log.numFiles == t.log.numFiles
    decreases |pieces|
  {
    if pieces == [] then t else Run(Wrote(t, pieces[0]), pieces[1..])
  }

  /** The files hold what the stream promises of everything written to it. */
  ghost predicate AsPromised(log: Log)
    requires Shaped(log)
  {
    Text(log.disk) == Expected(log.all, log.kind, log.maxFileSize, log.numFiles)
  }

  ghost predicate AlwaysAsPromised(t: Tallied)
    requires Sound(t)
  {
    forall pieces :: AsPromised(Run(t, pieces).log)
  }

  // ----- The files but for the one that a call-session stream spares -----

  /** Once the first file of a call-session stream is there for good, the others take turns like those of a plain
      stream. */
  predicate TakesTurns(log: Log) {
    log.kind.Plain? || log.rotations > 0
  }

  /** How many files take turns. */
  function Places(log: Log): int {
    if log.kind.Plain? then log.numFiles else log.numFiles - 1
  }

  function Front(log: Log): seq<string>
    requires log.disk != []
  {
    if log.kind.Plain? then log.disk else log.disk[..|log.disk| - 1]
  }

  function Spared(log: Log): seq<string>
    requires log.disk != []
  {
    if log.kind.Plain? then [] else log.disk[|log.disk| - 1..]
  }

  lemma FrontAndSpared(log: Log)
    requires Shaped(log)
    ensures log.disk == Front(log) + Spared(log)
    ensures Text(log.disk) == Text(Spared(log)) + Text(Front(log))
    ensures TakesTurns(log) ==> 1 <= |Front(log)| <= Places(log) && Places(log) >= 2
  {
    assert log.disk == Front(log) + Spared(log);
    TextAppend(Front(log), Spared(log));
  }

  lemma FrontRotates(log: Log)
    requires Shaped(log) && TakesTurns(log)
    ensures var log' := AfterRotation(log);
      && Front(log') == Rotated(Front(log), Places(log) - 1) && Spared(log') == Spared(log)
      && TakesTurns(log') && log'.maxFileSize == log.maxFileSize && log'.numFiles == log.numFiles
  {
    FrontAndSpared(log);
    if log.kind.CallSession? {
      var first := log.disk[|log.disk| - 1];
      assert Spared(log) == [first];
      RotateFront(Front(log), first, log.rotationIndex, log.numFiles - 1);
      var front := Rotated(Front(log), Places(log) - 1);
      assert AfterRotation(log).disk == front + [first];
    }
  }

  lemma FrontAppends(log: Log, d: string)
    requires Shaped(log) && TakesTurns(log)
    ensures var log' := log.(disk := Appended(log.disk, d), all := log.all + d);
      && Shaped(log') && Front(log') == Appended(Front(log), d) && Spared(log') == Spared(log)
  {
    FrontAndSpared(log);
  }

  /** A write of `d`, seen from `n` files of `m` bytes that take turns and the count. */
  predicate Stepped(front: seq<string>, count: nat, front': seq<string>, count': nat, m: nat, n: nat, d: string)
    requires front != [] && n >= 1
  {
    && count + |d| <= m
    && (count + |d| < m ==> count' == count + |d| && front' == Appended(front, d))
    && (count + |d| >= m ==> count' == 0 && front' == Rotated(Appended(front, d), n - 1))
  }

  lemma FrontWrote(t: Tallied, data: string)
    requires Sound(t) && TakesTurns(t.log)
    ensures var t' := Wrote(t, data);
      && TakesTurns(t'.log) && t'.log.maxFileSize == t.log.maxFileSize && Spared(t'.log) == Spared(t.log)
      && Places(t.log) >= 2 && Front(t.log) != []
      && Stepped(Front(t.log), t.count, Front(t'.log), t'.count, t.log.maxFileSize, Places(t.log), Offered(t, data))
  {
    var d := Offered(t, data);
    FrontAndSpared(t.log);
    FrontAppends(t.log, d);
    FrontRotates(t.log.(disk := Appended(t.log.disk, d), all := t.log.all + d));
  }

  // ----- Nothing has gone wrong, or only an empty file -----

  /** With the right count, a write is one step of the log, and the count stays right. */
  lemma RightWrote(log: Log, data: string)
    requires Inv(log)
    ensures var t := Tallied(log, |log.disk[0]|);
      && Sound(t)
      && var t' := Wrote(t, data);
        t'.log == AfterWrite(log, Offered(t, data)) && Inv(t'.log) && t'.count == |t'.log.disk[0]|
  {
    InvShaped(log);
    WriteKeepsInv(log, Offered(Tallied(log, |log.disk[0]|), data));
  }

  lemma {:induction false} RightStaysRight(t: Tallied, pieces: seq<string>)
    requires Sound(t) && Inv(t.log) && t.count == |t.log.disk[0]|
    ensures AsPromised(Run(t, pieces).log)
    decreases |pieces|
  {
    if pieces == [] {
      EndsKept(t.log);
    } else {
      RightWrote(t.log, pieces[0]);
      RightStaysRight(Wrote(t, pieces[0]), pieces[1..]);
    }
  }

  /** `front`, and an empty file behind it as long as there is a place for it. */
  function Padded(front: seq<string>, n: nat): seq<string> {
    if |front| < n then front + [""] else front
  }

  lemma PaddedText(front: seq<string>, n: nat)
    ensures Text(Padded(front, n)) == Text(front)
  {
    TextAppend(front, [""]);
    TextOne("");
    assert "" + Text(front) == Text(front);
  }

  lemma PaddedRotates(front: seq<string>, n: nat)
    requires 1 <= |front| <= n && n >= 2
    ensures Rotated(Padded(front, n), n - 1) == Padded(Rotated(front, n - 1), n)
  {
  }

  lemma PaddedAppends(front: seq<string>, n: nat, d: string)
    requires front != []
    ensures Appended(Padded(front, n), d) == Padded(Appended(front, d), n)
  {
  }

  /** What has been written to the files that take turns. */
  function Turned(log: Log): string
    requires log.kind.CallSession? ==> |log.all| >= log.kind.total / 2
  {
    if log.kind.Plain? then log.all else log.all[log.kind.total / 2..]
  }

  /** The files that take turns keep what they should, but for an empty file that is the oldest of them. */
  ghost predicate Behind(front: seq<string>, count: nat, core: seq<string>, rest: string, m: nat, n: nat, q: nat) {
    && n >= 2 && m > 0 && Keeps(rest, core, m, n, q) && |core[0]| == count && front == Padded(core, n)
  }

  ghost predicate EmptyBehind(t: Tallied, core: seq<string>, q: nat) {
    && Sound(t) && TakesTurns(t.log)
    && (t.log.kind.CallSession? ==>
          |t.log.all| >= t.log.kind.total / 2 && Spared(t.log) == [t.log.all[..t.log.kind.total / 2]])
    && Behind(Front(t.log), t.count, core, Turned(t.log), t.log.maxFileSize, Places(t.log), q)
  }

  lemma EmptyBehindPromised(t: Tallied, core: seq<string>, q: nat)
    requires EmptyBehind(t, core, q)
    ensures AsPromised(t.log)
  {
    FrontAndSpared(t.log);
    PaddedText(core, Places(t.log));
    KeepsKept(Turned(t.log), core, t.log.maxFileSize, Places(t.log), q);
    PromisedOfTurned(t.log);
  }

  /** It is enough to look at the files that take turns. */
  lemma PromisedOfTurned(log: Log)
    requires Shaped(log) && TakesTurns(log)
    requires log.kind.CallSession? ==>
      |log.all| >= log.kind.total / 2 && Spared(log) == [log.all[..log.kind.total / 2]]
    requires var rest := Turned(log);
      Text(Front(log)) == rest[|rest| - Kept(|rest|, log.maxFileSize, Places(log))..]
    ensures AsPromised(log)
  {
    if log.kind.CallSession? {
      CallText(log, log.kind.total / 2);
      CallPromised(log, log.kind.total / 2);
    }
  }

  lemma CallText(log: Log, H: nat)
    requires Shaped(log) && log.kind.CallSession? && H <= |log.all| && Spared(log) == [log.all[..H]]
    ensures Text(log.disk) == log.all[..H] + Text(Front(log))
  {
    FrontAndSpared(log);
    TextOne(log.all[..H]);
  }

  lemma CallPromised(log: Log, H: nat)
    requires Shaped(log) && log.kind.CallSession? && log.rotations > 0 && H == log.kind.total / 2 <= |log.all|
    requires var rest := log.all[H..];
      Text(log.disk) == log.all[..H] + rest[|rest| - Kept(|rest|, log.maxFileSize, log.numFiles - 1)..]
    ensures AsPromised(log)
  {
    SameTail(log.all, H, Kept(|log.all| - H, log.maxFileSize, log.numFiles - 1));
  }

  lemma SameTail(all: string, H: nat, n: nat)
    requires H + n <= |all|
    ensures all[H..][|all| - H - n..] == all[|all| - n..]
  {
  }

  /** A write to the files that take turns, with and without the empty file behind them. */
  lemma PaddedWrote(core: seq<string>, rest: string, m: nat, n: nat, q: nat, d: string)
    returns (core': seq<string>, q': nat)
    requires n >= 2 && m > 0 && Keeps(rest, core, m, n, q) && |core[0]| + |d| <= m
    ensures Keeps(rest + d, core', m, n, q') && |core'[0]| == if |core[0]| + |d| < m then |core[0]| + |d| else 0
    ensures var front := Appended(Padded(core, n), d);
      Padded(core', n) == if |core[0]| + |d| < m then front else Rotated(front, n - 1)
  {
    AppendKeeps(rest, core, m, n, q, d);
    PaddedAppends(core, n, d);
    core', q' := Appended(core, d), q;
    if |core[0]| + |d| == m {
      RotateKeeps(rest + d, core', m, n, q);
      PaddedRotates(core', n);
      core', q' := Rotated(core', n - 1), q + 1;
    }
  }

  lemma BehindWrote(front: seq<string>, count: nat, front': seq<string>, count': nat, core: seq<string>, rest: string,
                    m: nat, n: nat, q: nat, d: string)
    returns (core': seq<string>, q': nat)
    requires Behind(front, count, core, rest, m, n, q) && front != [] && Stepped(front, count, front', count', m, n, d)
    ensures Behind(front', count', core', rest + d, m, n, q')
  {
    core', q' := PaddedWrote(core, rest, m, n, q, d);
  }

  lemma EmptyBehindWrote(t: Tallied, core: seq<string>, q: nat, data: string) returns (core': seq<string>, q': nat)
    requires EmptyBehind(t, core, q)
    ensures EmptyBehind(Wrote(t, data), core', q')
  {
    var t', m, n, d := Wrote(t, data), t.log.maxFileSize, Places(t.log), Offered(t, data);
    FrontWrote(t, data);
    SparedWrote(t, data);
    core', q' := BehindWrote(Front(t.log), t.count, Front(t'.log), t'.count, core, Turned(t.log), m, n, q, d);
  }

  /** What a write leaves as it is, and what it adds to. */
  lemma SparedWrote(t: Tallied, data: string)
    requires Sound(t) && (t.log.kind.CallSession? ==> |t.log.all| >= t.log.kind.total / 2)
    ensures var t' := Wrote(t, data);
      && Places(t'.log) == Places(t.log)
      && (t.log.kind.CallSession? ==>
            && |t'.log.all| >= t.log.kind.total / 2
            && t'.log.all[..t.log.kind.total / 2] == t.log.all[..t.log.kind.total / 2])
      && Turned(t'.log) == Turned(t.log) + Offered(t, data)
  {
    TurnedMore(t.log, Offered(t, data));
  }

  lemma TurnedMore(log: Log, d: string)
    requires log.kind.CallSession? ==> |log.all| >= log.kind.total / 2
    ensures Turned(log.(all := log.all + d)) == Turned(log) + d
    ensures log.kind.CallSession? ==> (log.all + d)[..log.kind.total / 2] == log.all[..log.kind.total / 2]
  {
  }

  lemma {:induction false} EmptyStaysHarmless(t: Tallied, core: seq<string>, q: nat, pieces: seq<string>)
    requires EmptyBehind(t, core, q)
    ensures AsPromised(Run(t, pieces).log)
    decreases |pieces|
  {
    if pieces == [] {
      EmptyBehindPromised(t, core, q);
    } else {
      var core', q' := EmptyBehindWrote(t, core, q, pieces[0]);
      EmptyStaysHarmless(Wrote(t, pieces[0]), core', q', pieces[1..]);
    }
  }

  // ----- A file that was rotated out too early -----

  function Bytes(n: nat): (s: string)
    ensures |s| == n
  {
    seq(n, _ => 'x')
  }

  /** Writes that fill one file each. */
  function Fulls(k: nat, m: nat): seq<string> {
    if k == 0 then [] else [Bytes(m)] + Fulls(k - 1, m)
  }

  /** The newest file is empty, the `k` files before it have `m` bytes each, and before them is what was in `front`
      before. */
  ghost predicate FilledOver(front': seq<string>, front: seq<string>, n: int, k: nat, m: nat) {
    && front' != [] && front'[0] == "" && |front'| == (if |front| + k < n then |front| + k else n)
    && (forall i | 1 <= i <= k && i < |front'| :: |front'[i]| == m)
    && (forall i | k < i < |front'| :: i - k < |front| && front'[i] == front[i - k])
  }

  lemma FilledOnce(front: seq<string>, n: nat, b: string)
    requires 1 <= |front| <= n && n >= 2 && front[0] == ""
    ensures FilledOver(Rotated(Appended(front, b), n - 1), front, n, 1, |b|)
  {
    assert "" + b == b;
  }

  lemma FilledMore(front'': seq<string>, front': seq<string>, front: seq<string>, n: nat, k: nat, m: nat)
    requires 1 <= |front| <= n && FilledOver(front', front, n, 1, m) && FilledOver(front'', front', n, k, m)
    ensures FilledOver(front'', front, n, k + 1, m)
  {
    forall i | 1 <= i <= k + 1 && i < |front''|
      ensures |front''[i]| == m
    {
      assert i == k + 1 ==> front''[i] == front'[1];
    }
    forall i | k + 1 < i < |front''|
      ensures i - (k + 1) < |front| && front''[i] == front[i - (k + 1)]
    {
      assert front''[i] == front'[i - k];
    }
  }

  /** A file has just been started, with the one that a call-session stream spares in its place. */
  ghost predicate Starting(t: Tallied) {
    && Sound(t) && TakesTurns(t.log) && t.count == 0 && 1 <= |Front(t.log)| <= Places(t.log) && Places(t.log) >= 2
    && Front(t.log)[0] == ""
  }

  /** `k` full files later. */
  ghost predicate FilesLater(t: Tallied, t': Tallied, k: nat) {
    && Starting(t) && Starting(t') && t'.log.kind == t.log.kind && t'.log.numFiles == t.log.numFiles
    && t'.log.maxFileSize == t.log.maxFileSize && Spared(t'.log) == Spared(t.log)
    && |t'.log.all| == |t.log.all| + k * t.log.maxFileSize
    && FilledOver(Front(t'.log), Front(t.log), Places(t.log), k, t.log.maxFileSize)
  }

  lemma OneFileLater(t: Tallied)
    requires Starting(t)
    ensures FilesLater(t, Wrote(t, Bytes(t.log.maxFileSize)), 1)
  {
    var m := t.log.maxFileSize;
    assert Offered(t, Bytes(m)) == Bytes(m);
    FrontWrote(t, Bytes(m));
    FilledOnce(Front(t.log), Places(t.log), Bytes(m));
    FrontAndSpared(Wrote(t, Bytes(m)).log);
  }

  lemma FilesLaterThen(t: Tallied, t1: Tallied, t': Tallied, k: nat)
    requires FilesLater(t, t1, 1) && FilesLater(t1, t', k)
    ensures FilesLater(t, t', k + 1)
  {
    FilledMore(Front(t'.log), Front(t1.log), Front(t.log), Places(t.log), k, t.log.maxFileSize);
    assert (k + 1) * t.log.maxFileSize == k * t.log.maxFileSize + t.log.maxFileSize;
  }

  lemma {:induction false} FullRun(t: Tallied, k: nat)
    requires Starting(t)
    ensures FilesLater(t, Run(t, Fulls(k, t.log.maxFileSize)), k)
    decreases k
  {
    var m := t.log.maxFileSize;
    if k == 0 {
      assert 0 * m == 0;
    } else {
      OneFileLater(t);
      FullRun(Wrote(t, Bytes(m)), k - 1);
      assert Fulls(k, m)[0] == Bytes(m) && Fulls(k, m)[1..] == Fulls(k - 1, m);
      FilesLaterThen(t, Wrote(t, Bytes(m)), Run(t, Fulls(k, m)), k - 1);
    }
  }

  lemma {:induction false} FullText(files: seq<string>, m: nat)
    requires forall f | f in files :: |f| == m
    ensures |Text(files)| == |files| * m
  {
    if files != [] {
      FullText(files[1..], m);
      assert files[0] in files;
      OneMoreTimes(|files| - 1, m);
    }
  }

  lemma OneMoreTimes(k: nat, m: nat)
    ensures (k + 1) * m == k * m + m
  {
  }

  /** The newest file is empty, and the others have `m` bytes each. */
  lemma EmptyThenFull(front: seq<string>, m: nat)
    requires front != [] && front[0] == "" && forall i | 1 <= i < |front| :: |front[i]| == m
    ensures |Text(front)| == (|front| - 1) * m
  {
    FullText(front[1..], m);
  }

  /** The spared file, if there is one, has the bytes that it should have. */
  predicate SparedInFull(log: Log)
    requires log.disk != []
  {
    log.kind.CallSession? ==> |log.all| >= log.kind.total / 2 && |Text(Spared(log))| == log.kind.total / 2
  }

  /** How many bytes of what has been written to the files that take turns should be there. */
  lemma PromisedSize(log: Log)
    requires Shaped(log) && TakesTurns(log) && AsPromised(log) && SparedInFull(log)
    ensures |Text(Front(log))| == Kept(|Turned(log)|, log.maxFileSize, Places(log))
  {
    FrontAndSpared(log);
  }

  lemma KeptOf(q: nat, m: nat, f: nat, n: nat, k: nat)
    requires f < m && n >= 1
    ensures Kept(q * m + f + k * m, m, n) == f + Min(q + k, n - 1) * m
  {
    assert (q + k) * m == q * m + k * m;
    DivMod(q + k, m, f);
  }

  lemma TurnedLater(t: Tallied, t': Tallied, k: nat)
    requires FilesLater(t, t', k) && SparedInFull(t.log)
    ensures SparedInFull(t'.log) && |Turned(t'.log)| == |Turned(t.log)| + k * t.log.maxFileSize
  {
    MulMono(0, k, t.log.maxFileSize);
  }

  /** If the sizes differ `k` files later, the files are not always as promised. */
  lemma SizeTells(t: Tallied, t': Tallied, k: nat, size: nat)
    requires FilesLater(t, t', k) && t' == Run(t, Fulls(k, t.log.maxFileSize)) && SparedInFull(t.log)
    requires size == |Turned(t.log)| + k * t.log.maxFileSize
    requires |Text(Front(t'.log))| != Kept(size, t.log.maxFileSize, Places(t.log))
    ensures !AlwaysAsPromised(t)
  {
    TurnedLater(t, t', k);
    NotPromised(t'.log, size);
  }

  lemma NotPromised(log: Log, size: nat)
    requires Shaped(log) && TakesTurns(log) && SparedInFull(log) && size == |Turned(log)|
    requires |Text(Front(log))| != Kept(size, log.maxFileSize, Places(log))
    ensures !AsPromised(log)
  {
    if AsPromised(log) {
      PromisedSize(log);
      assert false;
    }
  }

  /** A file has just been started, and those that take turns, after `base` bytes in full files, end with one of `f`
      bytes. */
  ghost predicate Short(t: Tallied, base: nat, f: nat) {
    && Starting(t) && SparedInFull(t.log) && 0 < f < t.log.maxFileSize
    && |Front(t.log)| >= 2 && |Turned(t.log)| == base + f
  }

  /** After enough more files the short one has gone, and with it as much as it is too short. */
  lemma ShortFileTells(t: Tallied, q: nat, m: nat, base: nat, f: nat)
    requires Short(t, base, f) && m == t.log.maxFileSize && base == q * m
    ensures !AlwaysAsPromised(t)
  {
    var n := Places(t.log);
    FullRun(t, n - 1);
    var t' := Run(t, Fulls(n - 1, m));
    OthersFull(Front(t'.log), Front(t.log), n, m);
    KeptShort(q, base, m, f, n);
    SizeTells(t, t', n - 1, base + f + (n - 1) * m);
  }

  lemma OthersFull(front': seq<string>, front: seq<string>, n: nat, m: nat)
    requires n >= 2 && 1 <= |front| <= n && FilledOver(front', front, n, n - 1, m)
    ensures |Text(front')| == (n - 1) * m
  {
    EmptyThenFull(front', m);
  }

  lemma KeptShort(q: nat, base: nat, m: nat, f: nat, n: nat)
    requires 0 < f < m && n >= 2 && base == q * m
    ensures Kept(base + f + (n - 1) * m, m, n) == f + (n - 1) * m
  {
    KeptOf(q, m, f, n, n - 1);
  }

  /** An empty file that is not the first of all takes the place of a full one. */
  lemma EmptyFileTells(t: Tallied, q: nat, m: nat, base: nat)
    requires Starting(t) && SparedInFull(t.log) && q > 0 && m == t.log.maxFileSize && base == q * m
    requires |Front(t.log)| >= 2 && Front(t.log)[1] == "" && |Turned(t.log)| == base
    ensures !AlwaysAsPromised(t)
  {
    var n := Places(t.log);
    FullRun(t, n - 2);
    var t' := Run(t, Fulls(n - 2, m));
    EmptyLast(Front(t'.log), Front(t.log), n, m);
    OneFileLess(q, base, m, n);
    SizeTells(t, t', n - 2, base + (n - 2) * m);
  }

  lemma OneFileLess(q: nat, base: nat, m: nat, n: nat)
    requires q > 0 && m > 0 && n >= 2 && base == q * m
    ensures Kept(base + (n - 2) * m, m, n) > (n - 2) * m
  {
    KeptOf(q, m, 0, n, n - 2);
    assert (n - 1) * m == (n - 2) * m + m;
  }

  lemma EmptyLast(front': seq<string>, front: seq<string>, n: nat, m: nat)
    requires n >= 2 && 2 <= |front| <= n && front[1] == "" && FilledOver(front', front, n, n - 2, m)
    ensures |Text(front')| == (n - 2) * m
  {
    assert front'[n - 1] == front[1];
    assert front' == front'[..n - 1] + [""];
    PaddedText(front'[..n - 1], n);
    EmptyThenFull(front'[..n - 1], m);
  }

  /** As long as what is kept is less than the places hold, it is everything. */
  lemma KeptAll(L: nat, m: nat, n: nat)
    requires m > 0 && n >= 1 && L < n * m
    ensures Kept(L, m, n) == L
  {
    assert L == (L / m) * m + L % m;
    if L / m >= n {
      MulMono(n, L / m, m);
      assert false;
    }
  }

  lemma PromisedAll(log: Log)
    requires Shaped(log) && AsPromised(log) && log.kind.CallSession?
    requires |log.all| < log.kind.total / 2 + NumRotatingLogFiles(log.kind.total) * RotatingLogSize(log.kind.total)
    ensures |Text(log.disk)| == |log.all|
  {
    var H := log.kind.total / 2;
    if |log.all| >= H {
      KeptAll(|log.all| - H, RotatingLogSize(log.kind.total), NumRotatingLogFiles(log.kind.total));
    }
  }

  /** A first file that is too short: the others turn over while nothing should be lost yet. */
  lemma ShortFirstTells(t: Tallied)
    requires Starting(t) && t.log.kind.CallSession? && |Text(Spared(t.log))| == |t.log.all| < t.log.kind.total / 2
    ensures !AlwaysAsPromised(t)
  {
    var s, R := t.log.maxFileSize, Places(t.log);
    FullRun(t, R);
    var t' := Run(t, Fulls(R, s));
    OneFileLost(t, t');
    if AsPromised(t'.log) {
      PromisedAll(t'.log);
      assert false;
    }
  }

  lemma OneFileLost(t: Tallied, t': Tallied)
    requires Starting(t) && FilesLater(t, t', Places(t.log))
    requires t.log.kind.CallSession? && |Text(Spared(t.log))| == |t.log.all|
    ensures |Text(t'.log.disk)| < |t'.log.all| == |t.log.all| + Places(t.log) * t.log.maxFileSize
  {
    var s, R := t.log.maxFileSize, Places(t.log);
    EmptyThenFull(Front(t'.log), s);
    FrontAndSpared(t'.log);
    assert R * s == (R - 1) * s + s;
  }

  /** What a later write leads to, an earlier state leads to. */
  lemma TellsBefore(t: Tallied, data: string)
    requires Sound(t) && !AlwaysAsPromised(Wrote(t, data))
    ensures !AlwaysAsPromised(t)
  {
    var pieces :| !AsPromised(Run(Wrote(t, data), pieces).log);
    var all := [data] + pieces;
    assert all[0] == data && all[1..] == pieces;
    assert !AsPromised(Run(t, all).log);
  }

  // ----- The two kinds of failure -----

  lemma TurnsKeep(log: Log) returns (q: nat)
    requires Inv(log) && TakesTurns(log)
    ensures Shaped(log) && Keeps(Turned(log), Front(log), log.maxFileSize, Places(log), q)
    ensures Front(log)[0] == log.disk[0] && |log.disk[0]| < log.maxFileSize
    ensures log.kind.CallSession? ==>
      |log.all| >= log.kind.total / 2 && Spared(log) == [log.all[..log.kind.total / 2]]
  {
    InvShaped(log);
    q := if log.kind.Plain? then log.rotations else log.rotations - 1;
  }

  lemma SparedText(log: Log)
    requires log.disk != []
    requires log.kind.CallSession? ==>
      |log.all| >= log.kind.total / 2 && Spared(log) == [log.all[..log.kind.total / 2]]
    ensures SparedInFull(log)
  {
    if log.kind.CallSession? {
      TextOne(log.all[..log.kind.total / 2]);
    }
  }

  /** What has been written to the files that take turns is `base` bytes in `q` full files, and the newest file. */
  ghost predicate Filled(log: Log, q: nat, m: nat, base: nat) {
    && Shaped(log) && TakesTurns(log) && SparedInFull(log) && Front(log) != [] && Front(log)[0] == log.disk[0]
    && |log.disk[0]| < m == log.maxFileSize && base == q * m && |Turned(log)| == base + |log.disk[0]|
  }

  lemma FullThenNewest(log: Log) returns (q: nat, m: nat, base: nat)
    requires Inv(log) && TakesTurns(log)
    ensures Filled(log, q, m, base)
  {
    q := TurnsKeep(log);
    SparedText(log);
    m := log.maxFileSize;
    base := q * m;
  }

  /** A file that has been rotated out with `f` bytes is the second now. */
  lemma RotatedOut(t: Tallied, log: Log)
    requires Shaped(log) && TakesTurns(log) && t.log == AfterRotation(log) && t.count == 0
    ensures Starting(t) && |Front(t.log)| >= 2 && Front(t.log)[1] == Front(log)[0] && Spared(t.log) == Spared(log)
    ensures t.log.maxFileSize == log.maxFileSize && t.log.kind == log.kind && t.log.all == log.all
  {
    FrontAndSpared(log);
    RotationKeepsShape(log);
    FrontRotates(log);
    FrontAndSpared(t.log);
  }

  /** A file that is neither full nor empty is rotated out. */
  lemma RotatedIsShort(t: Tallied, log: Log, base: nat)
    requires Shaped(log) && TakesTurns(log) && SparedInFull(log) && t.log == AfterRotation(log) && t.count == 0
    requires 0 < |Front(log)[0]| < log.maxFileSize && |Turned(log)| == base + |Front(log)[0]|
    ensures Short(t, base, |Front(log)[0]|) && t.log.maxFileSize == log.maxFileSize
  {
    RotatedOut(t, log);
  }

  lemma ShortRotated(t: Tallied, log: Log, q: nat, m: nat, base: nat)
    requires Sound(t) && Filled(log, q, m, base) && t.log == AfterRotation(log) && t.count == 0 && log.disk[0] != ""
    ensures !AlwaysAsPromised(t)
  {
    var f := |log.disk[0]|;
    assert Short(t, base, f) && m == t.log.maxFileSize by {
      RotatedIsShort(t, log, base);
    }
    ShortFileTells(t, q, m, base, f);
  }

  /** An empty file that is not the first of all is rotated out. */
  lemma EmptyRotated(t: Tallied, log: Log, q: nat, m: nat, base: nat)
    requires Sound(t) && Filled(log, q, m, base) && t.log == AfterRotation(log) && t.count == 0
    requires log.disk[0] == "" && q > 0
    ensures !AlwaysAsPromised(t)
  {
    RotatedOut(t, log);
    EmptyFileTells(t, q, m, base);
  }

  lemma SomethingRotated(t: Tallied, log: Log, q: nat, m: nat, base: nat)
    requires Sound(t) && Filled(log, q, m, base) && t.log == AfterRotation(log) && t.count == 0 && Turned(log) != ""
    ensures !AlwaysAsPromised(t)
  {
    if log.disk[0] != "" {
      ShortRotated(t, log, q, m, base);
    } else {
      assert q > 0 by { assert 0 * m == 0; }
      EmptyRotated(t, log, q, m, base);
    }
  }

  /** The count reaches the size of a file: the file is rotated out as it is. */
  lemma RotatedEarly(log: Log, before: nat)
    requires Inv(log) && TakesTurns(log) && Sound(Tallied(log, |log.disk[0]|))
    requires |log.disk[0]| + before >= log.maxFileSize
    ensures AlwaysAsPromised(Failed(Tallied(log, |log.disk[0]|), before)) <==> Turned(log) == ""
  {
    var t := Failed(Tallied(log, |log.disk[0]|), before);
    if Turned(log) == "" {
      FirstRotated(t, log);
    } else {
      var q, m, base := FullThenNewest(log);
      SomethingRotated(t, log, q, m, base);
    }
  }

  /** An empty file, the first of all, is rotated out. */
  lemma FirstRotated(t: Tallied, log: Log)
    requires Inv(log) && TakesTurns(log) && Turned(log) == "" && t.log == AfterRotation(log) && t.count == 0
    ensures Sound(t) && AlwaysAsPromised(t)
  {
    var q := TurnsKeep(log);
    if q > 0 {
      MulAtLeast(q, log.maxFileSize);
      assert false;
    }
    EmptyIsBehind(t, log);
    EmptyAlways(t);
  }

  lemma EmptyAlways(t: Tallied)
    requires EmptyBehind(t, [""], 0)
    ensures AlwaysAsPromised(t)
  {
    forall pieces
      ensures AsPromised(Run(t, pieces).log)
    {
      EmptyStaysHarmless(t, [""], 0, pieces);
    }
  }

  lemma EmptyIsBehind(t: Tallied, log: Log)
    requires Shaped(log) && TakesTurns(log) && t.log == AfterRotation(log) && t.count == 0
    requires log.kind.CallSession? ==>
      |log.all| >= log.kind.total / 2 && Spared(log) == [log.all[..log.kind.total / 2]]
    requires Keeps(Turned(log), Front(log), log.maxFileSize, Places(log), 0) && Front(log)[0] == ""
    ensures EmptyBehind(t, [""], 0) && Turned(log) == ""
  {
    RotatedOut(t, log);
    FrontRotates(log);
    assert Front(log) == [""];
    assert 0 * log.maxFileSize == 0;
  }

  /** The count stays below the size of a file: the file will be rotated out when it lacks `before` bytes. */
  lemma RotatedShort(log: Log, before: nat)
    requires Inv(log) && TakesTurns(log) && Sound(Tallied(log, |log.disk[0]|))
    requires before > 0 && |log.disk[0]| + before < log.maxFileSize
    ensures !AlwaysAsPromised(Failed(Tallied(log, |log.disk[0]|), before))
  {
    var q, m, base := FullThenNewest(log);
    CountedTells(log, before, q, m, base);
  }

  lemma CountedTells(log: Log, before: nat, q: nat, m: nat, base: nat)
    requires Filled(log, q, m, base) && before > 0 && |log.disk[0]| + before < m && Sound(Tallied(log, |log.disk[0]|))
    ensures !AlwaysAsPromised(Failed(Tallied(log, |log.disk[0]|), before))
  {
    var fill := Bytes(m - |log.disk[0]| - before);
    assert fill != "" && |log.disk[0]| + before + |fill| == m;
    FilledTells(log, before, q, m, base, fill);
  }

  lemma FilledTells(log: Log, before: nat, q: nat, m: nat, base: nat, fill: string)
    requires Filled(log, q, m, base) && before > 0 && fill != "" && |log.disk[0]| + before + |fill| == m
    ensures !AlwaysAsPromised(Tallied(log, |log.disk[0]| + before))
  {
    var t, f := Tallied(log, |log.disk[0]| + before), |log.disk[0]| + |fill|;
    assert Sound(t) && Short(Wrote(t, fill), base, f) && Wrote(t, fill).log.maxFileSize == m by {
      FilledWrote(log, before, base, fill);
    }
    ShortFileTells(Wrote(t, fill), q, m, base, f);
    TellsBefore(t, fill);
  }

  lemma FilledWrote(log: Log, before: nat, base: nat, fill: string)
    requires Shaped(log) && TakesTurns(log) && SparedInFull(log) && Front(log)[0] == log.disk[0]
    requires before > 0 && fill != "" && |log.disk[0]| + before + |fill| == log.maxFileSize
    requires |Turned(log)| == base + |log.disk[0]|
    ensures var t := Tallied(log, |log.disk[0]| + before);
      && Sound(t) && Short(Wrote(t, fill), base, |log.disk[0]| + |fill|)
      && Wrote(t, fill).log.maxFileSize == log.maxFileSize
  {
    FillsUp(Tallied(log, |log.disk[0]| + before), fill);
    FilledShort(log, fill, base);
  }

  /** A write that fills the file as far as the count goes. */
  lemma FillsUp(t: Tallied, fill: string)
    requires Sound(t) && |fill| == t.log.maxFileSize - t.count
    ensures Wrote(t, fill) ==
      Tallied(AfterRotation(t.log.(disk := Appended(t.log.disk, fill), all := t.log.all + fill)), 0)
  {
    assert Offered(t, fill) == fill;
  }

  lemma FilledShort(log: Log, fill: string, base: nat)
    requires Shaped(log) && TakesTurns(log) && SparedInFull(log) && |Turned(log)| == base + |Front(log)[0]|
    requires 0 < |Front(log)[0]| + |fill| < log.maxFileSize
    ensures var log' := log.(disk := Appended(log.disk, fill), all := log.all + fill);
      && Shaped(log') && AfterRotation(log').maxFileSize == log.maxFileSize
      && Short(Tallied(AfterRotation(log'), 0), base, |Front(log)[0]| + |fill|)
  {
    var log' := log.(disk := Appended(log.disk, fill), all := log.all + fill);
    FrontAppends(log, fill);
    RotatedOut(Tallied(AfterRotation(log'), 0), log');
    TurnedMore(log, fill);
  }

  /** The first file of a call-session stream is rotated out too early. */
  lemma FirstTooShort(log: Log, before: nat)
    requires Inv(log) && !TakesTurns(log) && before > 0
    ensures Sound(Tallied(log, |log.disk[0]|))
    ensures !AlwaysAsPromised(Failed(Tallied(log, |log.disk[0]|), before))
  {
    InvShaped(log);
    var H, r := log.maxFileSize, |log.disk[0]|;
    if r + before >= H {
      FirstGone(Failed(Tallied(log, r), before), log);
    } else {
      var t, fill := Tallied(log, r + before), Bytes(H - r - before);
      FillsUp(t, fill);
      var log' := log.(disk := Appended(log.disk, fill), all := log.all + fill);
      assert log'.disk == [log'.all];
      FirstGone(Wrote(t, fill), log');
      TellsBefore(t, fill);
    }
  }

  lemma FirstGone(t: Tallied, log: Log)
    requires Shaped(log) && !TakesTurns(log) && log.disk == [log.all] && |log.all| < log.maxFileSize
    requires t.log == AfterRotation(log) && t.count == 0
    ensures Sound(t) && !AlwaysAsPromised(t)
  {
    RotationKeepsShape(log);
    assert t.log.disk == ["", log.all] && Front(t.log) == [""] && Spared(t.log) == [log.all];
    FrontAndSpared(t.log);
    TextOne(log.all);
    ShortFirstTells(t);
  }

  // ----- Exactly when the contents survive a failed write -----

  /** No file that takes turns has anything in it. */
  predicate NothingToLose(log: Log) {
    match log.kind
    case Plain => log.all == ""
    case CallSession(total) => |log.all| == total / 2
  }

  /** A write of which the file takes nothing, when the caller's count holds `before`: after it, and after every later
      sequence of writes, the files hold what the stream promises if and only if `before` is 0, or it is at least the
      size of a file and there is nothing yet in the files that take turns. */
  lemma FailedWriteExactly(log: Log, before: nat)
    requires Inv(log)
    ensures var t := Tallied(log, |log.disk[0]|);
      && Sound(t)
      && (AlwaysAsPromised(Failed(t, before)) <==>
            before == 0 || (before >= log.maxFileSize && NothingToLose(log)))
  {
    InvShaped(log);
    var t := Tallied(log, |log.disk[0]|);
    if before == 0 {
      assert Failed(t, 0) == t;
      forall pieces
        ensures AsPromised(Run(t, pieces).log)
      {
        RightStaysRight(t, pieces);
      }
    } else if !TakesTurns(log) {
      FirstTooShort(log, before);
    } else {
      NothingTurned(log);
      if t.count + before >= log.maxFileSize {
        RotatedEarly(log, before);
      } else {
        RotatedShort(log, before);
      }
    }
  }

  lemma NothingTurned(log: Log)
    requires Inv(log) && TakesTurns(log)
    ensures log.kind.CallSession? ==> |log.all| >= log.kind.total / 2
    ensures Turned(log) == "" <==> NothingToLose(log)
    ensures Turned(log) == "" ==> log.disk[0] == ""
  {
    var q := TurnsKeep(log);
    MulMono(0, q, log.maxFileSize);
  }

  /** A plain stream of two files of two bytes. */
  function TwoFiles(rotations: nat, disk: seq<string>, all: string, count: nat): Tallied {
    Tallied(Log(Plain, 2, 2, 1, rotations, disk, all), count)
  }

  lemma AfterFailure()
    ensures Sound(TwoFiles(0, [""], "", 0)) && Failed(TwoFiles(0, [""], "", 0), 1) == TwoFiles(0, [""], "", 1)
  {
  }

  lemma AfterOne(a: string)
    requires |a| == 1
    ensures Sound(TwoFiles(0, [""], "", 1)) && Wrote(TwoFiles(0, [""], "", 1), a) == TwoFiles(1, ["", a], a, 0)
  {
    var t := TwoFiles(0, [""], "", 1);
    assert Offered(t, a) == a && "" + a == a && Appended([""], a) == [a];
    assert Rotated([a], 1) == ["", a];
  }

  lemma AfterTwo(a: string, b: string)
    requires |a| == 1 && |b| == 2
    ensures Sound(TwoFiles(1, ["", a], a, 0)) && Wrote(TwoFiles(1, ["", a], a, 0), b) == TwoFiles(2, ["", b], a + b, 0)
  {
    var t := TwoFiles(1, ["", a], a, 0);
    assert Offered(t, b) == b && "" + b == b;
    assert Appended(["", a], b) == [b, a] && Rotated([b, a], 1) == ["", b];
  }

  lemma TextsOfTwo(a: string, b: string)
    requires |a| == 1 && |b| == 2
    ensures Text(["", b]) == b && Expected(a + b, Plain, 2, 2) == a + b
  {
    TextOne(b);
    assert ["", b][1..] == [b] && b + "" == b;
    KeptAll(3, 2, 2);
  }

  /** Two files of two bytes: a first write fails when the caller's count is 1, and then a byte and two bytes are
      written.  The first byte is lost, although all three should be there. */
  lemma OneByteLost(a: string, b: string)
    requires |a| == 1 && |b| == 2
    ensures Sound(TwoFiles(0, [""], "", 0)) && TwoFiles(0, [""], "", 0).log == OpenedPlain(2, 2)
    ensures Wrote(Wrote(Failed(TwoFiles(0, [""], "", 0), 1), a), b) == TwoFiles(2, ["", b], a + b, 0)
    ensures Text(["", b]) == b && Expected(a + b, Plain, 2, 2) == a + b
  {
    AfterFailure();
    AfterOne(a);
    AfterTwo(a, b);
    TextsOfTwo(a, b);
  }
}
