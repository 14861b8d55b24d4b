/** What a rotating set of log files holds, as values: `disk` is the contents of the files, newest first. */
module RotatingLog {
  import opened Arithmetic
  import opened Seqs

  /** What a reader gets who reads the files oldest first. */
  function Text(disk: seq<string>): string {
    if disk == [] then "" else Text(disk[1..]) + disk[0]
  }

  /** Rotation with the rotation index `r`: file `r` goes, the newer files move up, and a new file 0 is started. */
  function Rotated(disk: seq<string>, r: nat): seq<string> {
    [""] + if |disk| <= r then disk else disk[..r] + disk[r + 1..]
  }

  /** `data` is appended to file 0. */
  function Appended(disk: seq<string>, data: string): seq<string>
    requires disk != []
  {
    [disk[0] + data] + disk[1..]
  }

  /** After `q` rotations, `n` files of at most `m` bytes hold the end of `all`, in whole files but for the newest. */
  ghost predicate Keeps(all: string, disk: seq<string>, m: nat, n: nat, q: nat)
    requires n >= 1
  {
    && |disk| == Min(q, n - 1) + 1
    && |disk[0]| <= m && (forall i | 1 <= i < |disk| :: |disk[i]| == m)
    && |all| == q * m + |disk[0]|
    && |Text(disk)| == (|disk| - 1) * m + |disk[0]|
    && |Text(disk)| <= |all| && all[|all| - |Text(disk)|..] == Text(disk)
  }

  lemma {:induction false} TextAppend(newer: seq<string>, older: seq<string>)
    ensures Text(newer + older) == Text(older) + Text(newer)
  {
    if newer == [] {
      assert newer + older == older;
    } else {
      TextAppend(newer[1..], older);
      assert (newer + older)[1..] == newer[1..] + older;
      Seqs.Assoc(Text(older), Text(newer[1..]), newer[0]);
    }
  }

  lemma TextOne(file: string)
    ensures Text([file]) == file
  {
    assert Text([file]) == Text([]) + file;
  }

  lemma TextOfAppended(disk: seq<string>, data: string)
    requires disk != []
    ensures Text(Appended(disk, data)) == Text(disk) + data
  {
    assert Appended(disk, data)[1..] == disk[1..];
    Seqs.Assoc(Text(disk[1..]), disk[0], data);
  }

  lemma SuffixAppend(all: string, end: string, data: string)
    requires |end| <= |all| && all[|all| - |end|..] == end
    ensures (all + data)[|all| - |end|..] == end + data
  {
  }

  lemma AppendKeeps(all: string, disk: seq<string>, m: nat, n: nat, q: nat, data: string)
    requires n >= 1 && Keeps(all, disk, m, n, q) && |disk[0]| + |data| <= m
    ensures Keeps(all + data, Appended(disk, data), m, n, q)
  {
    TextOfAppended(disk, data);
    SuffixAppend(all, Text(disk), data);
  }

  lemma RotateKeeps(all: string, disk: seq<string>, m: nat, n: nat, q: nat)
    requires n >= 1 && Keeps(all, disk, m, n, q) && |disk[0]| == m
    ensures Keeps(all, Rotated(disk, n - 1), m, n, q + 1)
  {
    var kept := disk[..Min(|disk|, n - 1)];
    assert Rotated(disk, n - 1) == [""] + kept && ([""] + kept)[1..] == kept;
    assert Text([""] + kept) == Text(kept) + "";
    assert (q + 1) * m == q * m + m;
    if |disk| < n {
      assert kept == disk;
      assert |disk| * m == (|disk| - 1) * m + m;
    } else {
      assert disk == kept + [disk[n - 1]];
      TextAppend(kept, [disk[n - 1]]);
      TextOne(disk[n - 1]);
      DropOldest(all, disk[n - 1], Text(kept));
      if n > 1 {
        assert |Text(kept)| == (n - 1) * m + m - m;
      }
    }
  }

  lemma DropOldest(all: string, oldest: string, rest: string)
    requires |oldest + rest| <= |all| && all[|all| - |oldest + rest|..] == oldest + rest
    ensures all[|all| - |rest|..] == rest
  {
    assert all[|all| - |rest|..] == all[|all| - |oldest + rest|..][|oldest|..];
  }

  // ----- The two streams -----

  /** FileRotatingStream itself, or CallSessionFileRotatingStream with its total size. */
  datatype Kind = Plain | CallSession(total: nat)

  const DEFAULT_FILE_SIZE: nat := 1024 * 1024

  function NumRotatingLogFiles(total: nat): (n: nat)
    ensures n >= 2
  {
    if total / 2 / DEFAULT_FILE_SIZE < 2 then 2 else total / 2 / DEFAULT_FILE_SIZE
  }

  function RotatingLogSize(total: nat): (s: nat)
    ensures total >= 4 ==> s > 0
  {
    if NumRotatingLogFiles(total) > 2 then DEFAULT_FILE_SIZE else total / 4
  }

  /** A stream's settings, its file contents newest first, and everything that has been written to it. */
  datatype Log = Log(kind: Kind, numFiles: nat, maxFileSize: nat, rotationIndex: nat, rotations: nat,
                     disk: seq<string>, all: string)

  /** A stream just opened. */
  function Opened(kind: Kind, numFiles: nat, maxFileSize: nat): Log
    requires numFiles > 1
  {
    Log(kind, numFiles, maxFileSize, numFiles - 1, 0, [""], "")
  }

  function OpenedPlain(maxFileSize: nat, numFiles: nat): Log
    requires numFiles > 1
  {
    Opened(Plain, numFiles, maxFileSize)
  }

  function OpenedCallSession(total: nat): Log {
    Opened(CallSession(total), NumRotatingLogFiles(total) + 1, total / 2)
  }

  /** OnRotation: after its first rotation a call-session stream starts using small files, and once the next rotation
      would delete the very first file it spares that one. */
  function OnRotated(log: Log): Log
    requires log.rotationIndex > 0
  {
    var log' := log.(rotations := log.rotations + 1);
    match log.kind
    case Plain => log'
    case CallSession(total) =>
      if log'.rotations == 1 then log'.(maxFileSize := RotatingLogSize(total))
      else if log'.rotations == log.numFiles - 1 then log'.(rotationIndex := log.rotationIndex - 1)
      else log'
  }

  function AfterRotation(log: Log): Log
    requires log.rotationIndex > 0
  {
    OnRotated(log.(disk := Rotated(log.disk, log.rotationIndex)))
  }

  /** File 0 has taken `data`, and is rotated out if that filled it. */
  function AfterWrite(log: Log, data: string): Log
    requires log.disk != [] && log.rotationIndex > 0
  {
    var log' := log.(disk := Appended(log.disk, data), all := log.all + data);
    if |log'.disk[0]| >= log.maxFileSize then AfterRotation(log') else log'
  }

  // ----- The plain stream keeps a suffix -----

  ghost predicate PlainInv(log: Log) {
    && log.kind.Plain? && log.numFiles > 1 && log.rotationIndex == log.numFiles - 1 && log.maxFileSize > 0
    && Keeps(log.all, log.disk, log.maxFileSize, log.numFiles, log.rotations)
    && |log.disk[0]| < log.maxFileSize
  }

  lemma PlainWrite(log: Log, data: string)
    requires PlainInv(log) && |data| <= log.maxFileSize - |log.disk[0]|
    ensures PlainInv(AfterWrite(log, data))
    ensures AfterWrite(log, data).maxFileSize == log.maxFileSize && AfterWrite(log, data).numFiles == log.numFiles
  {
    var m, n, q := log.maxFileSize, log.numFiles, log.rotations;
    AppendKeeps(log.all, log.disk, m, n, q, data);
    var disk := Appended(log.disk, data);
    if |disk[0]| == m {
      RotateKeeps(log.all + data, disk, m, n, q);
    }
  }

  /** How much of `L` bytes is kept in `n` files of `m` bytes. */
  function Kept(L: nat, m: nat, n: nat): (kept: nat)
    requires m > 0 && n >= 1
    ensures kept <= L
  {
    MulMono(Min(L / m, n - 1), L / m, m);
    L % m + Min(L / m, n - 1) * m
  }

  lemma KeepsKept(all: string, disk: seq<string>, m: nat, n: nat, q: nat)
    requires n >= 1 && Keeps(all, disk, m, n, q) && |disk[0]| < m
    ensures Text(disk) == all[|all| - Kept(|all|, m, n)..]
  {
    DivMod(q, m, |disk[0]|);
  }

  /** With `n` files of `m` bytes, after any writes of L bytes in all, the files read oldest first hold exactly the last
      (L mod m) + min(L div m, n - 1) * m bytes, and there is room in file 0 before every write. */
  lemma PlainKeepsSuffix(log: Log)
    requires PlainInv(log)
    ensures |log.disk[0]| < log.maxFileSize
    ensures Text(log.disk) == log.all[|log.all| - Kept(|log.all|, log.maxFileSize, log.numFiles)..]
  {
    KeepsKept(log.all, log.disk, log.maxFileSize, log.numFiles, log.rotations);
  }

  // ----- The call-session stream keeps a prefix and a suffix -----

  /** Before the first rotation, all of it is in one file; then file R holds the first H bytes for good, and the newer
      files keep a suffix of the rest, as a plain stream of R files of s bytes would. */
  ghost predicate Divided(log: Log, H: nat, s: nat, R: nat) {
    && log.numFiles == R + 1 && R >= 2 && H > 0 && s > 0
    && (log.rotations == 0 ==>
          log.disk == [log.all] && |log.all| < H && log.maxFileSize == H && log.rotationIndex == R)
    && (log.rotations > 0 ==>
          && log.maxFileSize == s && log.rotationIndex == (if log.rotations < R then R else R - 1)
          && |log.all| >= H && |log.disk| > 1
          && log.disk[|log.disk| - 1] == log.all[..H]
          && Keeps(log.all[H..], log.disk[..|log.disk| - 1], s, R, log.rotations - 1)
          && |log.disk[0]| < s)
  }

  ghost predicate CallInv(log: Log, total: nat) {
    && total >= 4 && log.kind == CallSession(total)
    && Divided(log, total / 2, RotatingLogSize(total), NumRotatingLogFiles(total))
  }

  /** The first file and the rotating ones fit the total, and leave less than one more file of it unused: with three
      megabytes for the rotating files these are of one megabyte each, with less there are two, of a quarter each. */
  lemma SizesFit(total: nat)
    requires total >= 4
    ensures var n, s := NumRotatingLogFiles(total), RotatingLogSize(total);
      && n >= 2 && s > 0 && total / 2 + n * s <= total < total / 2 + n * s + (if n > 2 then s + 1 else 4)
      && (n > 2 <==> total / 2 >= 3 * 1048576) && s == if n > 2 then 1048576 else total / 4
  {
  }

  /** Rotating with the oldest file spared is rotating the others. */
  lemma RotateFront(front: seq<string>, first: string, r: nat, R: nat)
    requires 1 <= |front| <= R && r == (if |front| < R then R else R - 1)
    ensures Rotated(front + [first], r) == Rotated(front, R - 1) + [first]
  {
  }

  lemma FirstRotation(log: Log, H: nat, s: nat, R: nat, data: string)
    requires Divided(log, H, s, R) && log.rotations == 0 && |data| <= log.maxFileSize - |log.disk[0]|
    requires log.kind.CallSession? && s == RotatingLogSize(log.kind.total)
    ensures Divided(AfterWrite(log, data), H, s, R)
  {
    var log' := AfterWrite(log, data);
    assert Appended(log.disk, data) == [log.all + data];
    if |log.all + data| == H {
      assert log'.disk == ["", log'.all] && log'.disk[..1] == [""];
      assert log'.all[..H] == log'.all && log'.all[H..] == "";
      TextOne("");
    }
  }

  /** The two parts of the disk after the first rotation, and of what has been written. */
  ghost predicate Parts(log: Log, front: seq<string>, first: string, rest: string) {
    log.disk == front + [first] && log.all == first + rest && front != []
  }

  lemma GetParts(log: Log, H: nat, s: nat, R: nat) returns (front: seq<string>, first: string, rest: string)
    requires Divided(log, H, s, R) && log.rotations > 0
    ensures Parts(log, front, first, rest) && |first| == H && front[0] == log.disk[0]
    ensures Keeps(rest, front, s, R, log.rotations - 1)
  {
    var last := |log.disk| - 1;
    front, first, rest := log.disk[..last], log.disk[last], log.all[H..];
  }

  lemma PutParts(log: Log, H: nat, s: nat, R: nat, front: seq<string>, first: string, rest: string)
    requires Parts(log, front, first, rest) && |first| == H > 0 && s > 0 && R >= 2
    requires log.rotations > 0 && Keeps(rest, front, s, R, log.rotations - 1) && |front[0]| < s
    requires log.numFiles == R + 1 && log.maxFileSize == s
    requires log.rotationIndex == (if log.rotations < R then R else R - 1)
    ensures Divided(log, H, s, R)
  {
    assert log.disk[..|log.disk| - 1] == front;
    assert log.all[..H] == first && log.all[H..] == rest;
  }

  /** A write after the first rotation, seen from the newer files. */
  function FrontAfter(front: seq<string>, data: string, s: nat, R: nat): seq<string>
    requires front != [] && R >= 1
  {
    var front' := Appended(front, data);
    if |front'[0]| >= s then Rotated(front', R - 1) else front'
  }

  lemma FrontKeeps(front: seq<string>, rest: string, s: nat, R: nat, q: nat, data: string)
    requires R >= 1 && s > 0 && Keeps(rest, front, s, R, q) && |front[0]| + |data| <= s
    ensures var front' := FrontAfter(front, data, s, R);
      |front'[0]| < s && Keeps(rest + data, front', s, R, if |front[0]| + |data| == s then q + 1 else q)
  {
    AppendKeeps(rest, front, s, R, q, data);
    if |front[0]| + |data| == s {
      RotateKeeps(rest + data, Appended(front, data), s, R, q);
    }
  }

  /** The same write, seen from all files. */
  lemma LaterParts(log: Log, front: seq<string>, first: string, rest: string, data: string, R: nat)
    requires Parts(log, front, first, rest) && log.kind.CallSession? && log.rotations > 0
    requires log.numFiles == R + 1 && R >= 2
    requires log.rotationIndex == (if |front| < R then R else R - 1) && |front| <= R
    ensures var log' := AfterWrite(log, data);
      Parts(log', FrontAfter(front, data, log.maxFileSize, R), first, rest + data)
  {
    Seqs.Assoc(first, rest, data);
    assert Appended(log.disk, data) == Appended(front, data) + [first];
    RotateFront(Appended(front, data), first, log.rotationIndex, R);
  }

  lemma LaterSettings(log: Log, data: string)
    requires log.disk != [] && log.kind.CallSession? && log.rotations > 0 && log.rotationIndex > 0
    requires log.rotationIndex > 1 || log.rotations + 1 != log.numFiles - 1
    ensures var log', full := AfterWrite(log, data), |log.disk[0]| + |data| >= log.maxFileSize;
      && log'.rotations == log.rotations + (if full then 1 else 0) && log'.maxFileSize == log.maxFileSize
      && log'.rotationIndex == log.rotationIndex - (if full && log'.rotations == log.numFiles - 1 then 1 else 0)
  {
  }

  lemma LaterWrite(log: Log, H: nat, s: nat, R: nat, data: string)
    requires Divided(log, H, s, R) && log.rotations > 0 && |data| <= log.maxFileSize - |log.disk[0]|
    requires log.kind.CallSession?
    ensures Divided(AfterWrite(log, data), H, s, R)
  {
    var front, first, rest := GetParts(log, H, s, R);
    FrontKeeps(front, rest, s, R, log.rotations - 1, data);
    LaterParts(log, front, first, rest, data, R);
    LaterSettings(log, data);
    WriteKeepsSettings(log, data);
    PutParts(AfterWrite(log, data), H, s, R, FrontAfter(front, data, s, R), first, rest + data);
  }

  lemma WriteKeepsSettings(log: Log, data: string)
    requires log.disk != [] && log.rotationIndex > 0
    ensures var log' := AfterWrite(log, data);
      log'.all == log.all + data && log'.kind == log.kind && log'.numFiles == log.numFiles
    ensures log.kind.Plain? ==> AfterWrite(log, data).maxFileSize == log.maxFileSize
  {
  }

  lemma CallWrite(log: Log, total: nat, data: string)
    requires CallInv(log, total) && |data| <= log.maxFileSize - |log.disk[0]|
    ensures CallInv(AfterWrite(log, data), total)
  {
    var H, s, R := total / 2, RotatingLogSize(total), NumRotatingLogFiles(total);
    if log.rotations == 0 {
      FirstRotation(log, H, s, R, data);
    } else {
      LaterWrite(log, H, s, R, data);
    }
    WriteKeepsSettings(log, data);
  }

  /** After writes of L bytes in all, L >= H, the files read oldest first hold the first H bytes and then, of the
      M = L - H bytes after them, the last (M mod s) + min(M div s, R - 1) * s; before that they hold everything. */
  lemma KeepsBothEnds(log: Log, H: nat, s: nat, R: nat)
    requires Divided(log, H, s, R)
    ensures var L := |log.all|;
      Text(log.disk) == if L < H then log.all else log.all[..H] + log.all[L - Kept(L - H, s, R)..]
  {
    if log.rotations == 0 {
      TextOne(log.all);
    } else {
      var front, first, rest := GetParts(log, H, s, R);
      KeepsKept(rest, front, s, R, log.rotations - 1);
      PartsText(log, front, first, rest, Kept(|rest|, s, R));
    }
  }

  lemma PartsText(log: Log, front: seq<string>, first: string, rest: string, n: nat)
    requires Parts(log, front, first, rest) && n <= |rest| && Text(front) == rest[|rest| - n..]
    ensures Text(log.disk) == log.all[..|first|] + log.all[|log.all| - n..]
  {
    TextAppend(front, [first]);
    TextOne(first);
    SameEnd(first, rest, n);
  }

  lemma SameEnd(first: string, rest: string, n: nat)
    requires n <= |rest|
    ensures (first + rest)[..|first|] == first && (first + rest)[|first + rest| - n..] == rest[|rest| - n..]
  {
  }

  /** The bytes on disk never exceed the total, not even after a write has filled a file and before it is rotated. */
  lemma CallWithinTotal(log: Log, total: nat, data: string)
    requires CallInv(log, total) && |data| <= log.maxFileSize - |log.disk[0]|
    ensures |Text(Appended(log.disk, data))| <= total
  {
    var H, s, R := total / 2, RotatingLogSize(total), NumRotatingLogFiles(total);
    SizesFit(total);
    WithinSizes(log, H, s, R, data);
  }

  lemma WithinSizes(log: Log, H: nat, s: nat, R: nat, data: string)
    requires Divided(log, H, s, R) && |data| <= log.maxFileSize - |log.disk[0]|
    ensures |Text(Appended(log.disk, data))| <= H + R * s
  {
    TextOfAppended(log.disk, data);
    if log.rotations == 0 {
      TextOne(log.all);
    } else {
      var front, first, rest := GetParts(log, H, s, R);
      TextAppend(front, [first]);
      TextOne(first);
      FullFiles(|front|, |front[0]| + |data|, s, R);
    }
  }

  lemma FullFiles(files: nat, newest: nat, s: nat, R: nat)
    requires 1 <= files <= R && newest <= s
    ensures (files - 1) * s + newest <= R * s
  {
    MulMono(files - 1, R - 1, s);
    assert (R - 1) * s + s == R * s;
  }

  // ----- Over whole runs -----

  ghost predicate Inv(log: Log) {
    if log.kind.Plain? then PlainInv(log) else CallInv(log, log.kind.total)
  }

  lemma NotOneMore(all: string, disk: seq<string>, disk': seq<string>, m: nat, n: nat, q: nat)
    requires n >= 1 && Keeps(all, disk, m, n, q) && |disk[0]| < m && disk' != [] && disk'[0] == ""
    ensures !Keeps(all, disk', m, n, q + 1)
  {
    assert (q + 1) * m == q * m + m;
  }

  /** A file that is rotated out before it is full puts an end to all of that. */
  lemma EarlyRotationBreaks(log: Log)
    requires Inv(log) && log.rotationIndex > 0
    ensures !Inv(AfterRotation(log))
  {
    var disk := AfterRotation(log).disk;
    match log.kind
    case Plain =>
      NotOneMore(log.all, log.disk, disk, log.maxFileSize, log.numFiles, log.rotations);
    case CallSession(total) =>
      EarlyCallRotation(log, total);
  }

  lemma EarlyCallRotation(log: Log, total: nat)
    requires CallInv(log, total) && log.rotationIndex > 0
    ensures !CallInv(AfterRotation(log), total)
  {
    var H, s, R := total / 2, RotatingLogSize(total), NumRotatingLogFiles(total);
    if log.rotations > 0 {
      var front, last := log.disk[..|log.disk| - 1], |AfterRotation(log).disk| - 1;
      assert front[0] == log.disk[0];
      assert last > 0 ==> AfterRotation(log).disk[..last][0] == "";
      if last > 0 {
        NotOneMore(log.all[H..], front, AfterRotation(log).disk[..last], s, R, log.rotations - 1);
      }
    }
  }

  /** How much Write offers to the current file at most. */
  function Room(log: Log): int
    requires log.disk != []
  {
    log.maxFileSize - |log.disk[0]|
  }

  lemma WriteKeepsInv(log: Log, data: string)
    requires Inv(log) && |data| <= Room(log)
    ensures Inv(AfterWrite(log, data))
  {
    if log.kind.Plain? {
      PlainWrite(log, data);
    } else {
      CallWrite(log, log.kind.total, data);
    }
  }

  /** One write of which the file has taken `data`. */
  ghost function Write(log: Log, data: string): (log': Log)
    requires Inv(log) && |data| <= Room(log)
    ensures Inv(log') && log'.all == log.all + data && log'.kind == log.kind && log'.numFiles == log.numFiles
    ensures log.kind.Plain? ==> log'.maxFileSize == log.maxFileSize
  {
    WriteKeepsInv(log, data);
    WriteKeepsSettings(log, data);
    AfterWrite(log, data)
  }

  /** Each piece fits the current file when its turn comes. */
  ghost predicate Writable(log: Log, pieces: seq<string>)
    requires Inv(log)
    decreases |pieces|
  {
    pieces == [] || (|pieces[0]| <= Room(log) && Writable(Write(log, pieces[0]), pieces[1..]))
  }

  ghost function Writes(log: Log, pieces: seq<string>): (log': Log)
    requires Inv(log) && Writable(log, pieces)
    ensures Inv(log') && log'.all == log.all + Concat(pieces) && log'.kind == log.kind && log'.numFiles == log.numFiles
    ensures log.kind.Plain? ==> log'.maxFileSize == log.maxFileSize
    decreases |pieces|
  {
    if pieces == [] then log
    else
      Seqs.Assoc(log.all, pieces[0], Concat(pieces[1..]));
      Writes(Write(log, pieces[0]), pieces[1..])
  }

  lemma OpenedPlainInv(m: nat, n: nat)
    requires m > 0 && n > 1
    ensures Inv(OpenedPlain(m, n))
  {
    TextOne("");
    assert 0 * m == 0;
  }

  lemma OpenedCallSessionInv(total: nat)
    requires total >= 4
    ensures Inv(OpenedCallSession(total))
  {
  }

  /** What a reader should find on the disk of a stream to which `all` has been written: the last
      (L mod m) + min(L div m, n - 1) * m of L bytes; with a call-session stream all L bytes while they have not filled
      the first file, and then the first H bytes followed by that much of the end of the others. */
  function Expected(all: string, kind: Kind, m: nat, n: nat): string
    requires if kind.Plain? then m > 0 && n > 1 else kind.total >= 4
  {
    match kind
    case Plain => all[|all| - Kept(|all|, m, n)..]
    case CallSession(total) =>
      var H := total / 2;
      if |all| < H then all
      else all[..H] + all[|all| - Kept(|all| - H, RotatingLogSize(total), NumRotatingLogFiles(total))..]
  }

  /** Whatever has been written to a stream since it was opened, and however the files have taken it. */
  lemma RunKeepsEnds(log: Log, pieces: seq<string>)
    requires Inv(log) && log.all == "" && Writable(log, pieces)
    ensures var log' := Writes(log, pieces);
      Text(log'.disk) == Expected(Concat(pieces), log.kind, log.maxFileSize, log.numFiles)
    ensures log.kind.CallSession? ==> |Text(Writes(log, pieces).disk)| <= log.kind.total
  {
    var log' := Writes(log, pieces);
    assert "" + Concat(pieces) == Concat(pieces);
    EndsKept(log');
    if log.kind.CallSession? {
      SizesDoNotMatter(log'.all, log.kind, log.maxFileSize, log.numFiles, log'.maxFileSize, log'.numFiles);
    }
  }

  lemma SizesDoNotMatter(all: string, kind: Kind, m: nat, n: nat, m': nat, n': nat)
    requires kind.CallSession? && kind.total >= 4
    ensures Expected(all, kind, m, n) == Expected(all, kind, m', n')
  {
  }

  lemma EndsKept(log: Log)
    requires Inv(log)
    ensures Text(log.disk) == Expected(log.all, log.kind, log.maxFileSize, log.numFiles)
    ensures log.kind.CallSession? ==> |Text(log.disk)| <= log.kind.total
  {
    match log.kind
    case Plain =>
      PlainKeepsSuffix(log);
    case CallSession(total) =>
      KeepsBothEnds(log, total / 2, RotatingLogSize(total), NumRotatingLogFiles(total));
      CallWithinTotal(log, total, "");
      TextOfAppended(log.disk, "");
  }
}
