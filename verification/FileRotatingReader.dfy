/** FileRotatingStream in its reading mode: it finds the files by their prefix and reads them oldest first. */
module FileRotatingReader {
  import opened FileNames
  import opened RotatingLog
  import opened FileRotatingStream
  import Seqs

  lemma TextOfLast(newer: seq<string>, oldest: string)
    ensures Text(newer + [oldest]) == oldest + Text(newer)
  {
    TextAppend(newer, [oldest]);
    TextOne(oldest);
  }

  /** What is still to be read of `disk` from `offset` in file `index` on. */
  function Left(disk: seq<string>, index: nat, offset: nat): string
    requires index < |disk| ==> offset <= |disk[index]|
  {
    if index >= |disk| then "" else disk[index][offset..] + Text(disk[..index])
  }

  lemma LeftAtStart(disk: seq<string>)
    ensures Left(disk, if |disk| > 0 then |disk| - 1 else 0, 0) == Text(disk)
  {
    if disk != [] {
      var newer, oldest := disk[..|disk| - 1], disk[|disk| - 1];
      TextOfLast(newer, oldest);
      Seqs.OneMore(disk, 0, |disk| - 1);
      assert disk[0..|disk|] == disk && disk[0..|disk| - 1] == newer && oldest[0..] == oldest;
    }
  }

  lemma LeftAfter(disk: seq<string>, index: nat, offset: nat, n: nat)
    requires index < |disk| && offset + n <= |disk[index]|
    ensures Left(disk, index, offset) == disk[index][offset..offset + n] + Left(disk, index, offset + n)
  {
    var file := disk[index];
    assert file[offset..] == file[offset..offset + n] + file[offset + n..];
    Seqs.Assoc(file[offset..offset + n], file[offset + n..], Text(disk[..index]));
  }

  lemma LeftAtEnd(disk: seq<string>, index: nat)
    requires index < |disk|
    ensures Left(disk, index, |disk[index]|) == Left(disk, if index == 0 then |disk| else index - 1, 0)
  {
    var file := disk[index];
    assert file[|file|..] == "" && "" + Text(disk[..index]) == Text(disk[..index]);
    if index > 0 {
      Seqs.OneMore(disk, 0, index - 1);
      TextOfLast(disk[..index - 1], disk[index - 1]);
      assert disk[index - 1][0..] == disk[index - 1];
    }
  }

  ghost predicate AreAll(names: seq<string>, all: set<string>) {
    forall x :: x in names <==> x in all
  }

  lemma InsertSorted(names: seq<string>, k: nat, name: string)
    requires Sorted(names) && k <= |names| && name !in names
    requires (forall i | 0 <= i < k :: Before(names[i], name)) && (k == |names| || Before(name, names[k]))
    ensures Sorted(names[..k] + [name] + names[k..])
    ensures forall x :: x in names[..k] + [name] + names[k..] <==> x == name || x in names
  {
    var s := names[..k] + [name] + names[k..];
    forall i, j | 0 <= i < j < |s|
      ensures Before(s[i], s[j])
    {
      if i == k && j > k + 1 {
        BeforeTransitive(name, names[k], s[j]);
      } else if i < k < j {
        BeforeTransitive(s[i], name, if j == k + 1 then s[j] else names[k]);
        if j > k + 1 {
          BeforeTransitive(s[i], names[k], s[j]);
        }
      }
    }
    assert names == names[..k] + names[k..];
  }

  /** std::sort of distinct names */
  method Sort(all: set<string>) returns (names: seq<string>)
    ensures Sorted(names) && AreAll(names, all)
  {
    names := [];
    var left := all;
    while left != {}
      invariant left <= all && Sorted(names) && AreAll(names, all - left)
    {
      var name :| name in left;
      var k := 0;
      while k < |names| && Before(names[k], name)
        invariant k <= |names| && forall i | 0 <= i < k :: Before(names[i], name)
      {
        k := k + 1;
      }
      if k < |names| {
        BeforeTotal(name, names[k]);
      }
      InsertSorted(names, k, name);
      names := names[..k] + [name] + names[k..];
      left := left - {name};
    }
  }

  /** The reader finds a writer's files in the writer's order. */
  lemma FindsFiles(files: map<string, string>, path: string, names: seq<string>, disk: seq<string>, found: seq<string>)
    requires NamesOf(path, names) && OnlyNames(files, path, names)
    requires |disk| <= |names| && Slots(files, names) == Holding(disk, |names|)
    requires Sorted(found) && AreAll(found, set f | f in files && path <= f)
    ensures found == names[..|disk|]
    ensures forall i | 0 <= i < |disk| :: found[i] in files && files[found[i]] == disk[i]
  {
    NamesSorted(path, names);
    forall i | 0 <= i < |names|
      ensures names[i] in files <==> i < |disk|
      ensures i < |disk| ==> files[names[i]] == disk[i]
    {
      HeldAt(files, names, disk, i);
    }
    FoundAre(files, path, names, |disk|, found);
    SortedIsUnique(found, names[..|disk|]);
  }

  lemma HeldAt(files: map<string, string>, names: seq<string>, disk: seq<string>, i: nat)
    requires |disk| <= |names| && i < |names| && Slots(files, names) == Holding(disk, |names|)
    ensures if i < |disk| then names[i] in files && files[names[i]] == disk[i] else names[i] !in files
  {
    assert Slots(files, names)[i] == Holding(disk, |names|)[i];
  }

  lemma FoundAre(files: map<string, string>, path: string, names: seq<string>, n: nat, found: seq<string>)
    requires n <= |names| && OnlyNames(files, path, names) && AreAll(found, set f | f in files && path <= f)
    requires forall f | f in names :: path <= f
    requires forall i | 0 <= i < |names| :: names[i] in files <==> i < n
    ensures SameNames(found, names[..n])
  {
    forall f | f in found
      ensures f in names[..n]
    {
      var i :| 0 <= i < |names| && names[i] == f;
      assert names[..n][i] == f;
    }
    forall f | f in names[..n]
      ensures f in found
    {
      var i :| 0 <= i < n && names[..n][i] == f;
      assert names[i] == f && f in names;
    }
  }

  datatype Position = Closed | At(offset: nat)

  class FileRotatingReader {
    const fs: Filesystem
    const fileNames: seq<string>
    var currentFileIndex: nat
    var fileStream: Position
    ghost const disk: seq<string>    // what the files hold

    ghost predicate Valid()
      reads this, fs
    {
      && |disk| == |fileNames|
      && (forall i | 0 <= i < |fileNames| :: fileNames[i] in fs.files && fs.files[fileNames[i]] == disk[i])
      && (fileStream.At? ==> currentFileIndex < |disk| && fileStream.offset <= |disk[currentFileIndex]|)
    }

    /** What is still to be read. */
    ghost function Remaining(): string
      requires Valid()
      reads this, fs
    {
      Left(disk, currentFileIndex, if fileStream.At? then fileStream.offset else 0)
    }

    function FilesLeft(): nat
      reads this
    {
      if currentFileIndex >= |fileNames| then 0 else currentFileIndex + 1
    }

    constructor (fs: Filesystem, path: string)
      ensures Valid() && this.fs == fs && Remaining() == Text(disk)
      ensures Sorted(fileNames) && AreAll(fileNames, set f | f in fs.files && path <= f)
    {
      var found := Sort(set f | f in fs.files && path <= f);
      this.fs, fileNames := fs, found;
      currentFileIndex, fileStream := if |found| > 0 then |found| - 1 else 0, Closed;
      assert forall i | 0 <= i < |found| :: found[i] in found;
      disk := seq(|found|, i requires 0 <= i < |found| reads fs =>
        if found[i] in fs.files then fs.files[found[i]] else "");
      new;
      LeftAtStart(disk);
    }

    /** Some of the current file, or, at its end, nothing but a step to the next newer one. */
    method Read(bufferLen: nat) returns (result: StreamResult, data: string)
      requires Valid()
      modifies this`currentFileIndex, this`fileStream
      ensures Valid()
      ensures result == SR_EOS <==> old(FilesLeft()) == 0
      ensures result == SR_EOS ==> data == "" && Remaining() == old(Remaining()) == ""
      ensures result != SR_EOS ==> result == SR_SUCCESS && |data| <= bufferLen && old(Remaining()) == data + Remaining()
      ensures result != SR_EOS && bufferLen > 0 ==>
        FilesLeft() < old(FilesLeft()) || (FilesLeft() == old(FilesLeft()) && data != "")
    {
      if currentFileIndex >= |fileNames| {
        return SR_EOS, "";
      }
      if fileStream.Closed? {
        fileStream := At(0);
      }
      var content := fs.files[fileNames[currentFileIndex]];
      if bufferLen > 0 && fileStream.offset == |content| {
        NextFile();
        return SR_SUCCESS, "";
      }
      data := ReadSome(content, bufferLen);
      result := SR_SUCCESS;
    }

    /** At the end of a file the next newer one is due. */
    method NextFile()
      requires Valid() && fileStream.At? && fileStream.offset == |disk[currentFileIndex]|
      modifies this`currentFileIndex, this`fileStream
      ensures Valid() && Remaining() == old(Remaining()) && FilesLeft() < old(FilesLeft())
    {
      LeftAtEnd(disk, currentFileIndex);
      fileStream := Closed;
      currentFileIndex := if currentFileIndex == 0 then |fileNames| else currentFileIndex - 1;
    }

    /** The file gives as much as it likes, but something if anything is asked for and left. */
    method ReadSome(content: string, bufferLen: nat) returns (data: string)
      requires Valid() && fileStream.At? && content == disk[currentFileIndex]
      modifies this`fileStream
      ensures Valid() && |data| <= bufferLen && old(Remaining()) == data + Remaining()
      ensures bufferLen > 0 && old(fileStream.offset) < |content| ==> data != ""
    {
      var offset := fileStream.offset;
      var choice: int := *;
      var most := if bufferLen < |content| - offset then bufferLen else |content| - offset;
      var taken := if 0 < choice < most then choice else most;
      LeftAfter(disk, currentFileIndex, offset, taken);
      fileStream := At(offset + taken);
      data := content[offset..offset + taken];
    }

    /** Reads to the end of the stream. */
    method ReadAll(bufferLen: nat) returns (text: string)
      requires Valid() && bufferLen > 0
      modifies this`currentFileIndex, this`fileStream
      ensures text == old(Remaining())
    {
      text := "";
      var result := SR_SUCCESS;
      while result != SR_EOS
        invariant Valid() && text + Remaining() == old(Remaining())
        invariant result == SR_EOS ==> Remaining() == ""
        decreases result != SR_EOS, FilesLeft(), |Remaining()|
      {
        var data;
        result, data := Read(bufferLen);
        Seqs.Assoc(text, data, Remaining());
        text := text + data;
      }
    }
  }

  /** Reading the log back gives what the stream promises of everything written to it. */
  method ReadBack(stream: FileRotatingStream, bufferLen: nat) returns (text: string)
    requires stream.Valid() && stream.open && bufferLen > 0
    ensures text == Text(stream.disk)
    ensures text == Expected(stream.all, stream.kind, stream.maxFileSize, |stream.names|)
  {
    var reader := new FileRotatingReader(stream.fs, stream.path);
    FindsFiles(stream.fs.files, stream.path, stream.names, stream.disk, reader.fileNames);
    assert reader.disk == stream.disk;
    text := reader.ReadAll(bufferLen);
    EndsKept(stream.Log());
  }
}
