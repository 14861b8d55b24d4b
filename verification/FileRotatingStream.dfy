/** FileRotatingStream and CallSessionFileRotatingStream of filerotatingstream.cc, over a directory of files. */
module FileRotatingStream {
  import opened Arithmetic
  import opened FileNames
  import opened RotatingFaults
  import opened RotatingLog

  /** The files of one directory, by path.  Its operations succeed. */
  class Filesystem {
    var files: map<string, string>

    constructor (files: map<string, string>)
      ensures this.files == files
    {
      this.files := files;
    }

    method DeleteFile(name: string)
      modifies this
      ensures files == old(files) - {name}
    {
      files := files - {name};
    }

    /** rename(from, to) */
    method MoveFile(source: string, target: string)
      requires source in files && source != target
      modifies this
      ensures files == (old(files) - {source})[target := old(files[source])]
    {
      var content := files[source];
      files := (files - {source})[target := content];
    }

    /** fopen(name, "w+") */
    method CreateFile(name: string)
      modifies this
      ensures files == old(files)[name := ""]
    {
      files := files[name := ""];
    }

    /** fwrite at the end: takes what there is, but no more than `takes`. */
    method AppendFile(name: string, data: string, takes: nat) returns (written: nat)
      requires name in files
      modifies this
      ensures written == Min(takes, |data|) && files == old(files)[name := old(files[name]) + data[..written]]
    {
      written := Min(takes, |data|);
      files := files[name := files[name] + data[..written]];
    }
  }

  datatype Slot = Absent | Present(content: string)

  /** The directory seen through `names`. */
  function Slots(files: map<string, string>, names: seq<string>): seq<Slot> {
    seq(|names|, i requires 0 <= i < |names| => if names[i] in files then Present(files[names[i]]) else Absent)
  }

  /** The first names hold `disk`, the others have no file. */
  function Holding(disk: seq<string>, n: nat): seq<Slot>
    requires |disk| <= n
  {
    seq(n, i requires 0 <= i < n => if i < |disk| then Present(disk[i]) else Absent)
  }

  predicate Same(before: map<string, string>, after: map<string, string>, f: string) {
    (f in before <==> f in after) && (f in before ==> before[f] == after[f])
  }

  /** Files whose path does not start with `path` are left alone. */
  ghost predicate SameOutside(before: map<string, string>, after: map<string, string>, path: string) {
    forall f | !(path <= f) :: Same(before, after, f)
  }

  ghost predicate OnlyNames(files: map<string, string>, path: string, names: seq<string>) {
    forall f | f in files && path <= f :: f in names
  }

  /** Only files at `names` differ. */
  ghost predicate SameButFor(before: map<string, string>, after: map<string, string>, names: seq<string>) {
    forall f | f !in names :: Same(before, after, f)
  }

  predicate Distinct(names: seq<string>) {
    forall i, j | 0 <= i < j < |names| :: names[i] != names[j]
  }

  lemma NamesSorted(path: string, names: seq<string>)
    requires NamesOf(path, names)
    ensures Sorted(names) && Distinct(names) && forall f | f in names :: path <= f
  {
    forall i, j | 0 <= i < j < |names|
      ensures Before(names[i], names[j]) && names[i] != names[j]
    {
      NamesInOrder(path, i, j, |names|);
      BeforeIrreflexive(names[i]);
    }
    forall f | f in names
      ensures path <= f
    {
      var i :| 0 <= i < |names| && names[i] == f;
    }
  }

  lemma OursOnly(path: string, names: seq<string>, before: map<string, string>, after: map<string, string>)
    requires NamesOf(path, names) && SameButFor(before, after, names)
    ensures SameOutside(before, after, path)
    ensures OnlyNames(before, path, names) ==> OnlyNames(after, path, names)
  {
    NamesSorted(path, names);
    forall f | !(f in names)
      ensures Same(before, after, f)
    {
    }
  }

  lemma OutsideTransitive(a: map<string, string>, b: map<string, string>, c: map<string, string>, path: string)
    requires SameOutside(a, b, path) && SameOutside(b, c, path)
    ensures SameOutside(a, c, path)
  {
    forall f | !(path <= f)
      ensures Same(a, c, f)
    {
      assert Same(a, b, f) && Same(b, c, f);
    }
  }

  lemma DeleteOurs(before: map<string, string>, files: map<string, string>, path: string, name: string)
    requires SameOutside(before, files, path) && path <= name
    ensures SameOutside(before, files - {name}, path)
  {
    forall f | !(path <= f)
      ensures Same(before, files - {name}, f)
    {
      assert Same(before, files, f);
    }
  }

  lemma PutOurs(before: map<string, string>, files: map<string, string>, path: string, names: seq<string>,
                content: string)
    requires SameOutside(before, files, path) && NamesOf(path, names) && names != []
    ensures SameOutside(before, files[names[0] := content], path)
    ensures OnlyNames(files, path, names) ==> OnlyNames(files[names[0] := content], path, names)
  {
    NamesSorted(path, names);
    var after := files[names[0] := content];
    forall f | !(path <= f)
      ensures Same(before, after, f)
    {
      assert Same(before, files, f);
    }
  }

  /** File 0 of a directory from which everything else with the prefix has gone. */
  lemma FirstFile(path: string, names: seq<string>, files: map<string, string>)
    requires NamesOf(path, names) && names != [] && OnlyNames(files, path, [])
    ensures Slots(files[names[0] := ""], names) == Holding([""], |names|)
    ensures OnlyNames(files[names[0] := ""], path, names)
  {
    NamesSorted(path, names);
    forall i | 0 <= i < |names|
      ensures names[i] !in files
    {
      assert names[i] in names;
    }
  }

  lemma FirstIsThere(files: map<string, string>, names: seq<string>, disk: seq<string>)
    requires 0 < |disk| <= |names| && Slots(files, names) == Holding(disk, |names|)
    ensures names[0] in files && files[names[0]] == disk[0]
  {
    assert Slots(files, names)[0] == Present(disk[0]);
  }

  lemma SlotsDelete(files: map<string, string>, names: seq<string>, i: nat)
    requires Distinct(names) && i < |names|
    ensures Slots(files - {names[i]}, names) == Slots(files, names)[i := Absent]
    ensures SameButFor(files, files - {names[i]}, names)
  {
  }

  lemma SlotsPut(files: map<string, string>, names: seq<string>, i: nat, content: string)
    requires Distinct(names) && i < |names|
    ensures Slots(files[names[i] := content], names) == Slots(files, names)[i := Present(content)]
    ensures SameButFor(files, files[names[i] := content], names)
  {
  }

  lemma AppendSlots(files: map<string, string>, names: seq<string>, disk: seq<string>, data: string)
    requires Distinct(names) && 0 < |disk| <= |names| && Slots(files, names) == Holding(disk, |names|)
    ensures names[0] in files
    ensures Slots(files[names[0] := files[names[0]] + data], names) == Holding(Appended(disk, data), |names|)
  {
    FirstIsThere(files, names, disk);
    SlotsPut(files, names, 0, disk[0] + data);
  }

  /** Rotation half done: the files from `i` up to `r` have moved up by one, and place `i` is free. */
  function HalfRotated(before: seq<Slot>, i: nat, r: nat): (slots: seq<Slot>)
    requires i <= r < |before|
    ensures |slots| == |before|
  {
    before[..i] + [Absent] + before[i..r] + before[r + 1..]
  }

  lemma RotateOne(before: seq<Slot>, i: nat, r: nat)
    requires 0 < i <= r < |before|
    ensures HalfRotated(before, i, r)[i - 1] == before[i - 1]
    ensures HalfRotated(before, i, r)[i - 1 := Absent][i := before[i - 1]] == HalfRotated(before, i - 1, r)
  {
  }

  /** What MoveFile makes of the directory, if the file `names[i - 1]` is there. */
  function MovedUp(files: map<string, string>, names: seq<string>, i: nat): map<string, string>
    requires 0 < i < |names|
  {
    if names[i - 1] in files then (files - {names[i - 1]})[names[i] := files[names[i - 1]]] else files
  }

  lemma MoveUpRotates(files: map<string, string>, names: seq<string>, before: seq<Slot>, i: nat, r: nat)
    requires Distinct(names) && 0 < i <= r < |names| == |before| && Slots(files, names) == HalfRotated(before, i, r)
    ensures Slots(MovedUp(files, names, i), names) == HalfRotated(before, i - 1, r)
    ensures SameButFor(files, MovedUp(files, names, i), names)
  {
    RotateOne(before, i, r);
    var slots := Slots(files, names);
    assert slots[i - 1] == before[i - 1];
    if names[i - 1] in files {
      SlotsDelete(files, names, i - 1);
      SlotsPut(files - {names[i - 1]}, names, i, files[names[i - 1]]);
    } else {
      assert slots[i - 1 := Absent] == slots && slots[i := Absent] == slots;
    }
  }

  lemma DeleteStarts(files: map<string, string>, names: seq<string>, r: nat)
    requires Distinct(names) && r < |names|
    ensures Slots(files - {names[r]}, names) == HalfRotated(Slots(files, names), r, r)
    ensures SameButFor(files, files - {names[r]}, names)
  {
    SlotsDelete(files, names, r);
  }

  lemma RotatedSlots(disk: seq<string>, n: nat, r: nat)
    requires 0 < |disk| <= n && 0 < r < n
    ensures |Rotated(disk, r)| <= n
    ensures HalfRotated(Holding(disk, n), 0, r)[0 := Present("")] == Holding(Rotated(disk, r), n)
  {
  }

  lemma CreateEnds(files: map<string, string>, names: seq<string>, disk: seq<string>, r: nat)
    requires Distinct(names) && 0 < |disk| <= |names| && 0 < r < |names|
    requires Slots(files, names) == HalfRotated(Holding(disk, |names|), 0, r)
    ensures |Rotated(disk, r)| <= |names|
    ensures Slots(files[names[0] := ""], names) == Holding(Rotated(disk, r), |names|)
    ensures SameButFor(files, files[names[0] := ""], names)
  {
    SlotsPut(files, names, 0, "");
    RotatedSlots(disk, |names|, r);
  }

  datatype StreamResult = SR_ERROR | SR_SUCCESS | SR_EOS

  /** The file takes nothing, although there is something to take. */
  predicate Fails(data: string, takes: nat) {
    takes == 0 && data != ""
  }

  lemma NothingAppended(disk: seq<string>, all: string)
    requires disk != []
    ensures Appended(disk, "") == disk && all + "" == all
  {
    assert disk[0] + "" == disk[0];
  }

  class FileRotatingStream {
    const fs: Filesystem
    const path: string               // directory and prefix
    const kind: Kind
    const names: seq<string>
    var open: bool
    var maxFileSize: nat
    var rotationIndex: nat
    var currentBytesWritten: nat
    var numRotations: nat
    ghost var disk: seq<string>      // the contents of the files, newest first
    ghost var all: string            // everything written since Open

    ghost function Log(): Log
      reads this
    {
      RotatingLog.Log(kind, |names|, maxFileSize, rotationIndex, numRotations, disk, all)
    }

    /** The directory is as the log says. */
    ghost predicate FilesThere()
      reads this, fs
    {
      && NamesOf(path, names) && rotationIndex < |names|
      && 0 < |disk| <= |names| && Slots(fs.files, names) == Holding(disk, |names|) && OnlyNames(fs.files, path, names)
    }

    ghost function Now(): Tallied
      reads this
    {
      Tallied(Log(), currentBytesWritten)
    }

    /** As constructed: there is no closing and opening again here. */
    ghost predicate Fresh()
      reads this
    {
      disk == [""] && all == "" && currentBytesWritten == 0
    }

    /** What holds even if the count is not that of the bytes in file 0. */
    ghost predicate Usable()
      reads this, fs
    {
      NamesOf(path, names) && Sound(Now()) && if open then FilesThere() else Fresh()
    }

    ghost predicate Valid()
      reads this, fs
    {
      Usable() && Inv(Log()) && currentBytesWritten == |disk[0]|
    }

    constructor ForLog(fs: Filesystem, path: string, maxFileSize: nat, numFiles: nat)
      requires maxFileSize > 0 && numFiles > 1
      ensures Valid() && !open && this.fs == fs && this.path == path && kind == Plain
      ensures Log() == OpenedPlain(maxFileSize, numFiles)
    {
      var names := GetFilePaths(path, numFiles);
      this.fs, this.path, this.kind, this.names := fs, path, RotatingLog.Plain, names;
      open, this.maxFileSize, rotationIndex := false, maxFileSize, numFiles - 1;
      currentBytesWritten, numRotations := 0, 0;
      disk, all := [""], "";
      OpenedPlainInv(maxFileSize, numFiles);
      InvShaped(OpenedPlain(maxFileSize, numFiles));
    }

    constructor ForCallSession(fs: Filesystem, path: string, total: nat)
      requires total >= 4
      ensures Valid() && !open && this.fs == fs && this.path == path && kind == CallSession(total)
      ensures Log() == OpenedCallSession(total)
    {
      var numFiles := NumRotatingLogFiles(total) + 1;
      var names := GetFilePaths(path, numFiles);
      this.fs, this.path, this.kind, this.names := fs, path, RotatingLog.CallSession(total), names;
      open, maxFileSize, rotationIndex, currentBytesWritten, numRotations := false, total / 2, numFiles - 1, 0, 0;
      disk, all := [""], "";
      OpenedCallSessionInv(total);
      InvShaped(OpenedCallSession(total));
    }

    /** Deletes whatever has the prefix and starts file 0. */
    method Open()
      requires Valid() && !open
      modifies this`open, fs
      ensures Valid() && open && Log() == old(Log()) && SameOutside(old(fs.files), fs.files, path)
    {
      var matching := set f | f in fs.files && path <= f;
      while matching != {}
        invariant matching == set f | f in fs.files && path <= f
        invariant SameOutside(old(fs.files), fs.files, path)
      {
        var f :| f in matching;
        DeleteOurs(old(fs.files), fs.files, path, f);
        fs.DeleteFile(f);
        matching := matching - {f};
      }
      assert forall f | f in fs.files && path <= f :: f in matching;
      FirstFile(path, names, fs.files);
      PutOurs(old(fs.files), fs.files, path, names, "");
      fs.CreateFile(names[0]);
      open := true;
    }

    /** Deletes the file at the rotation index, renames the newer ones, and starts a new file 0. */
    method MoveFiles()
      requires open && FilesThere() && rotationIndex > 0
      modifies this`currentBytesWritten, this`disk, fs
      ensures FilesThere() && currentBytesWritten == 0 && disk == Rotated(old(disk), rotationIndex)
      ensures SameOutside(old(fs.files), fs.files, path)
    {
      NamesSorted(path, names);
      ghost var before, r := Slots(fs.files, names), rotationIndex;
      currentBytesWritten := 0;
      DeleteStarts(fs.files, names, rotationIndex);
      fs.DeleteFile(names[rotationIndex]);
      var i := rotationIndex;
      while i > 0
        invariant 0 <= i <= r && Slots(fs.files, names) == HalfRotated(before, i, r)
        invariant SameButFor(old(fs.files), fs.files, names) && disk == old(disk) && currentBytesWritten == 0
      {
        MoveUpRotates(fs.files, names, before, i, r);
        if names[i - 1] in fs.files {
          fs.MoveFile(names[i - 1], names[i]);
        }
        i := i - 1;
      }
      CreateEnds(fs.files, names, disk, r);
      fs.CreateFile(names[0]);
      OursOnly(path, names, old(fs.files), fs.files);
      disk := Rotated(disk, r);
    }

    /** OnRotation of the stream's kind. */
    method OnRotation()
      requires rotationIndex > 0
      modifies this`numRotations, this`maxFileSize, this`rotationIndex
      ensures Log() == OnRotated(old(Log()))
    {
      numRotations := numRotations + 1;
      match kind
      case Plain =>
      case CallSession(total) =>
        if numRotations == 1 {
          maxFileSize := RotatingLogSize(total);
        } else if numRotations == |names| - 1 {
          rotationIndex := rotationIndex - 1;
        }
    }

    method RotateFiles()
      requires open && FilesThere() && rotationIndex > 0
      modifies this`maxFileSize, this`rotationIndex, this`currentBytesWritten, this`numRotations, this`disk, fs
      ensures FilesThere() && Now() == Tallied(AfterRotation(old(Log())), 0)
      ensures SameOutside(old(fs.files), fs.files, path)
    {
      MoveFiles();
      OnRotation();
    }

    /** FileStream::Write: the file takes `takes` bytes at most, and taking nothing of something is an error. */
    method Append(data: string, takes: nat) returns (result: StreamResult, written: nat)
      requires open && FilesThere()
      modifies this`disk, this`all, fs
      ensures result == if Fails(data, takes) then SR_ERROR else SR_SUCCESS
      ensures FilesThere() && written == Min(takes, |data|)
      ensures disk == Appended(old(disk), data[..written]) && all == old(all) + data[..written]
      ensures SameOutside(old(fs.files), fs.files, path)
    {
      NamesSorted(path, names);
      ghost var before := fs.files;
      FirstIsThere(before, names, disk);
      written := fs.AppendFile(names[0], data, takes);
      AppendSlots(before, names, disk, data[..written]);
      PutOurs(before, before, path, names, before[names[0]] + data[..written]);
      disk, all := Appended(disk, data[..written]), all + data[..written];
      result := if written == 0 && |data| > 0 then SR_ERROR else SR_SUCCESS;
    }

    /** Write on an open stream: as much as fits the current file, which is rotated out if that filled it.  `before` is
        what the caller's count of written bytes holds when the call begins: a failed write leaves it, and adds it. */
    method WriteToFile(data: string, takes: nat, before: nat) returns (result: StreamResult, written: nat)
      requires open && Usable()
      modifies this`maxFileSize, this`rotationIndex, this`currentBytesWritten, this`numRotations
      modifies this`disk, this`all, fs
      ensures FilesThere() && SameOutside(old(fs.files), fs.files, path)
      ensures !Fails(data, takes) ==>
        && result == SR_SUCCESS && written == Min(takes, Min(|data|, old(maxFileSize - currentBytesWritten)))
        && all == old(all) + data[..written]
        && Now() == Wrote(old(Now()), data[..written])
      ensures Fails(data, takes) ==>
        result == SR_ERROR && written == before && Now() == Failed(old(Now()), before)
    {
      var remainingBytes := maxFileSize - currentBytesWritten;
      var writeLength := if |data| < remainingBytes then |data| else remainingBytes;
      var taken;
      result, taken := Append(data[..writeLength], takes);
      written := if result == SR_ERROR then before else taken;
      currentBytesWritten := currentBytesWritten + written;
      NothingAppended(old(disk), old(all));
      assert data[..writeLength][..taken] == data[..taken] && data[..taken][..taken] == data[..taken];
      ghost var middle := fs.files;
      if currentBytesWritten >= maxFileSize {
        RotateFiles();
        OutsideTransitive(old(fs.files), middle, fs.files, path);
      }
    }

    /** Once the count is right it stays right, unless a write fails with another count than 0. */
    lemma StaysValid(log: Log, data: string, taken: nat)
      requires Inv(log) && taken <= |Offered(Tallied(log, |log.disk[0]|), data)| && Usable()
      requires Sound(Tallied(log, |log.disk[0]|)) && Now() == Wrote(Tallied(log, |log.disk[0]|), data[..taken])
      ensures Valid() && Log() == AfterWrite(log, data[..taken])
    {
      RightWrote(log, data[..taken]);
      TakenIsOffered(Tallied(log, |log.disk[0]|), data, taken);
    }

    /** On an open stream a write of which the file takes something is one step of the log.  One of which it takes
        nothing fails, and adds the caller's count to that of the file. */
    method Write(data: string, takes: nat, before: nat) returns (result: StreamResult, written: nat)
      requires Usable()
      modifies this`maxFileSize, this`rotationIndex, this`currentBytesWritten, this`numRotations
      modifies this`disk, this`all, fs
      ensures Usable() && SameOutside(old(fs.files), fs.files, path)
      ensures !open ==>
        result == SR_ERROR && written == before && Now() == old(Now()) && fs.files == old(fs.files)
      ensures open && !Fails(data, takes) ==>
        && result == SR_SUCCESS && written == Min(takes, Min(|data|, old(maxFileSize - currentBytesWritten)))
        && all == old(all) + data[..written] && (data != "" ==> written > 0)
        && Now() == Wrote(old(Now()), data[..written])
        && (old(Valid()) ==> Valid() && Log() == AfterWrite(old(Log()), data[..written]))
      ensures open && Fails(data, takes) ==>
        && result == SR_ERROR && written == before && Now() == Failed(old(Now()), before)
        && (old(Valid()) ==> (Valid() <==> before == 0))
    {
      if !open {
        return SR_ERROR, before;
      }
      ghost var valid, log := Valid(), Log();
      result, written := WriteToFile(data, takes, before);
      if valid {
        if Fails(data, takes) {
          EarlyRotationBreaks(log);
        } else {
          StaysValid(log, data, written);
        }
      }
    }
  }
}
