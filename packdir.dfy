/** The archiver (`Pack` and `addFile`): compression-level clamping, resolution of the
    archive's base directory, the entry name each scanned path is stored under, and the
    accounting of per-file and finalisation errors into a `PackResult`.
    The file system, the zip writer and the DEFLATE codec are replaced by their outcomes:
    whether the destination can be created, what opening, stat-ing and copying each
    scanned path does, and whether closing the writer fails. */
module PackDir {
  import opened Options
  import opened GoLib
  import opened Scanner

  // The compression levels the archive writer accepts, and the fallback.
  const HuffmanOnly := -2
  const FairCompression := 2
  const BestCompression := 9

  /** The level handed to the DEFLATE writer: a level outside -2..9 is replaced by 2;
      this never fails the operation. */
  function ClampLevel(level: int): (r: int)
    ensures HuffmanOnly <= r <= BestCompression
    ensures HuffmanOnly <= level <= BestCompression ==> r == level
    ensures level < HuffmanOnly || level > BestCompression ==> r == FairCompression
  {
    if level < HuffmanOnly || level > BestCompression then FairCompression else level
  }

  /** The base directory every entry is stored under. `source` is the already cleaned
      source path. An empty choice becomes the source's last element, a "." (chosen or
      derived) becomes "snapshot", and then one trailing slash, if any, is dropped. */
  function ResolveTargetBase(source: string, targetBaseDir: string): (r: string)
    ensures targetBaseDir == "." ==> r == "snapshot"
    ensures targetBaseDir != "" && targetBaseDir != "." ==>
              if EndsWithSlash(targetBaseDir) then r + "/" == targetBaseDir else r == targetBaseDir
    ensures targetBaseDir == "" ==>
              r == if Base(source) == "." then "snapshot"
                   else if Base(source) == "/" then ""
                   else Base(source)
  {
    var chosen := if targetBaseDir == "" then Base(source) else targetBaseDir;
    var named := if chosen == "." then "snapshot" else chosen;
    // `named` is never empty here, so looking at its last character is safe
    if EndsWithSlash(named) then named[..|named| - 1] else named
  }

  /** `name` lies under the directory `base` of the archive: it reads `<base>/...`. */
  predicate UnderBase(name: string, base: string)
  {
    |name| > |base| && name[..|base|] == base && name[|base|] == '/'
  }

  /** With no base chosen, a source `dir/name` gives `name` as the base: the last
      element of the source, as `path.Base` finds it. */
  lemma ResolveDerivedBase(dir: string, name: string)
    requires name != [] && '/' !in name && name != "."
    ensures ResolveTargetBase(dir + "/" + name, "") == name
  {
    BaseOfJoin(dir, name);
  }

  /** The trailing-slash step runs after the "." check and removes one slash only:
      "x//" becomes "x/", "./" becomes "." (not "snapshot"), and "/" becomes "". */
  lemma ResolveSuppliedBaseCases(source: string)
    ensures ResolveTargetBase(source, "x//") == "x/"
    ensures ResolveTargetBase(source, "./") == "."
    ensures ResolveTargetBase(source, "/") == ""
  {
    assert "x//"[..2] == "x/" && "./"[..1] == ".";
  }

  /** The current directory as source, with no base chosen, gives "snapshot". */
  lemma ResolveCurrentDirectory()
    ensures ResolveTargetBase(".", "") == "snapshot"
  {
    BaseOfElement(".");
  }

  /** The root as source, with no base chosen, gives the empty base, so its entries
      are named "/...". */
  lemma ResolveRootDirectory()
    ensures ResolveTargetBase("/", "") == ""
  {
    assert forall i :: 0 <= i < |"/"| ==> "/"[i] == '/';
    assert Base("/") == "/";
    assert "/"[..0] == "";
  }

  /** The name `addFile` gives the archive entry for `file`: the target base, a slash,
      and what is left of `file` after the cutset trim (see EntryNameRest). */
  function EntryName(file: string, sourceBase: string, targetBase: string): (r: string)
    ensures UnderBase(r, targetBase)
  {
    var f := if file == "/" then "" else file;
    var r := targetBase + "/" + TrimLeft(f, sourceBase);
    assert r[..|targetBase|] == targetBase;
    r
  }

  /** What follows `<targetBase>/` in an entry name is `file` with its longest leading
      run of characters occurring in `sourceBase` trimmed off: a suffix of `file` that
      does not start with a `sourceBase` character. Only the path "/" itself loses its
      slash before the trim, whatever `sourceBase` is. */
  lemma EntryNameRest(file: string, sourceBase: string, targetBase: string)
    ensures var rest := EntryName(file, sourceBase, targetBase)[|targetBase| + 1..];
            |rest| <= |file| && rest == file[|file| - |rest|..]
    ensures var rest := EntryName(file, sourceBase, targetBase)[|targetBase| + 1..];
            rest != [] ==> rest[0] !in sourceBase
    ensures var rest := EntryName(file, sourceBase, targetBase)[|targetBase| + 1..];
            file != "/" ==> forall i :: 0 <= i < |file| - |rest| ==> file[i] in sourceBase
    ensures file == "/" ==> EntryName(file, sourceBase, targetBase) == targetBase + "/"
  {
    var r := EntryName(file, sourceBase, targetBase);
    if file == "/" {
      assert TrimLeft("", sourceBase) == "";
    } else {
      var rest := TrimLeft(file, sourceBase);
      assert r[|targetBase| + 1..] == rest by {
        assert r == targetBase + "/" + rest;
      }
      TrimLeftResult(file, sourceBase);
    }
  }

  /** For a relative source without slashes (such as "dir"), the trim stops at the
      separator, so a walked path `dir/rest` is stored as `<targetBase>//rest`. */
  lemma EntryNameOfRelativeSource(source: string, rest: string, targetBase: string)
    requires source != [] && '/' !in source
    ensures EntryName(source + "/" + rest, source, targetBase) == targetBase + "//" + rest
  {
    var file, tail := source + "/" + rest, "/" + rest;
    assert TrimLeft(file, source) == tail by {
      assert file == source + tail;
      TrimLeftSkipsRun(source, tail, source);
      assert tail[0] == '/';
    }
    assert targetBase + "/" + tail == targetBase + "//" + rest;
  }

  /** When the source contains a slash (an absolute source, say), the trim also removes
      the separator, and a name whose first character does not occur in the source is
      stored unchanged as `<targetBase>/name`. */
  lemma EntryNameOfSourceWithSlash(source: string, name: string, targetBase: string)
    requires '/' in source && name != [] && name[0] !in source
    ensures EntryName(source + "/" + name, source, targetBase) == targetBase + "/" + name
  {
    assert source + "/" + name == (source + "/") + name;
    TrimLeftSkipsRun(source + "/", name, source);
  }

  /** The cutset trim eats into a file's own name when that name starts with a character
      of the source: with source "/home/u/dir", "/home/u/dir/dim.txt" is not stored as
      `<targetBase>/dim.txt` (it becomes `<targetBase>/.txt`). */
  lemma EntryNameOvertrims(source: string, name: string, targetBase: string)
    requires '/' in source && name != [] && name[0] in source
    ensures EntryName(source + "/" + name, source, targetBase) != targetBase + "/" + name
  {
    var file := source + "/" + name;
    EntryNameRest(file, source, targetBase);
    var rest := EntryName(file, source, targetBase)[|targetBase| + 1..];
    assert rest != name;
    assert (targetBase + "/" + name)[|targetBase| + 1..] == name;
  }

  /** Two different files can share one entry name: for a source containing a slash,
      any run of source characters between the source and the rest of the path is
      trimmed away, so `src/x` and `src/<run>x` collide. With source "/srv", both
      "/srv/x" and "/srv/s/x" are stored as `<targetBase>/x`. */
  lemma EntryNamesCollide(source: string, run1: string, run2: string, rest: string,
                          targetBase: string)
    requires '/' in source
    requires forall i :: 0 <= i < |run1| ==> run1[i] in source
    requires forall i :: 0 <= i < |run2| ==> run2[i] in source
    requires rest != [] && rest[0] !in source
    ensures EntryName(source + "/" + run1 + rest, source, targetBase) ==
            EntryName(source + "/" + run2 + rest, source, targetBase)
    ensures EntryName(source + "/" + run1 + rest, source, targetBase) == targetBase + "/" + rest
  {
    var prefix1, prefix2 := source + "/" + run1, source + "/" + run2;
    assert forall i :: 0 <= i < |prefix1| ==> prefix1[i] in source by {
      forall i | 0 <= i < |prefix1|
        ensures prefix1[i] in source
      {
        if i < |source| {
          assert prefix1[i] == source[i];
        } else if i > |source| {
          assert prefix1[i] == run1[i - |source| - 1];
        }
      }
    }
    assert forall i :: 0 <= i < |prefix2| ==> prefix2[i] in source by {
      forall i | 0 <= i < |prefix2|
        ensures prefix2[i] in source
      {
        if i < |source| {
          assert prefix2[i] == source[i];
        } else if i > |source| {
          assert prefix2[i] == run2[i - |source| - 1];
        }
      }
    }
    TrimLeftSkipsRun(prefix1, rest, source);
    TrimLeftSkipsRun(prefix2, rest, source);
    TrimLeftRemovesLongestRun(rest, source, 0);
    assert rest[0..] == rest;
    assert prefix1 + rest != "/" && prefix2 + rest != "/";
  }

  /** An error value handed back by the file system or the zip writer. */
  datatype IoError = IoError(message: string)

  /** What happens, in order, when `addFile` opens the file, stats it, creates its
      archive entry and copies the content into it. The file opened is the scanned path
      after the special case for "/": for the path "/" itself it is the empty path, which
      never opens (see RootOpenFails). */
  datatype FileIo =
    | OpenFails(error: IoError)
    | StatFails(error: IoError)
    | IsDirectory
    | CreateFails(error: IoError)
    | CopyFails(error: IoError)
    | Copied

  /** `addFile` returns an error for this outcome. */
  predicate Fails(io: FileIo)
  {
    io.OpenFails? || io.StatFails? || io.CreateFails? || io.CopyFails?
  }

  /** The zip writer has an entry for the file after this outcome (a failed copy leaves
      a partly written one). */
  predicate WritesEntry(io: FileIo)
  {
    io.CopyFails? || io.Copied?
  }

  /** What one `addFile` call leaves behind: the entry it created, if any, and the error
      it returned (None for nil). */
  datatype AddResult = AddResult(entry: Option<string>, err: Option<IoError>)

  /** `addFile`: the error of the first failing step is returned; a directory returns nil
      without creating an entry; once entry creation succeeds the entry is there under
      EntryName, whether or not the copy then fails. */
  function AddFile(file: string, sourceBase: string, targetBase: string, io: FileIo): (r: AddResult)
    ensures r.err.Some? <==> Fails(io)
    ensures r.err.Some? ==> r.err.value == io.error
    ensures r.entry.Some? <==> WritesEntry(io)
    ensures r.entry.Some? ==> r.entry.value == EntryName(file, sourceBase, targetBase)
  {
    var name := EntryName(file, sourceBase, targetBase);
    match io
    case OpenFails(e) => AddResult(None, Some(e))
    case StatFails(e) => AddResult(None, Some(e))
    case IsDirectory => AddResult(None, None)
    case CreateFails(e) => AddResult(None, Some(e))
    case CopyFails(e) => AddResult(Some(name), Some(e))
    case Copied => AddResult(Some(name), None)
  }

  /** The outcomes fit the paths: the path "/" is opened as the empty path, and opening
      the empty path always fails. */
  predicate RootOpenFails(files: seq<string>, io: seq<FileIo>)
    requires |files| == |io|
  {
    forall k :: 0 <= k < |io| && files[k] == "/" ==> io[k].OpenFails?
  }

  /** The number of files whose `addFile` call fails. */
  function FailedAdds(io: seq<FileIo>): nat
  {
    if io == [] then 0
    else FailedAdds(io[..|io| - 1]) + (if Fails(io[|io| - 1]) then 1 else 0)
  }

  /** The entry names the zip writer receives, in the order of the files. */
  function WrittenEntries(files: seq<string>, io: seq<FileIo>, sourceBase: string, targetBase: string): seq<string>
    requires |files| == |io|
  {
    if io == [] then []
    else
      var n := |io| - 1;
      WrittenEntries(files[..n], io[..n], sourceBase, targetBase) +
      (if WritesEntry(io[n]) then [EntryName(files[n], sourceBase, targetBase)] else [])
  }

  /** `PackResult`: filled in by Pack as it goes. FileNum receives the scanned byte
      total, not a count of files. */
  class PackResult {
    var FileNum: int
    var ScanErrNum: int
    var ArchiveErrNum: int

    constructor ()
      ensures FileNum == 0 && ScanErrNum == 0 && ArchiveErrNum == 0
    {
      FileNum, ScanErrNum, ArchiveErrNum := 0, 0, 0;
    }
  }

  /** The archive as the zip writer leaves it: the DEFLATE level registered for it, the
      names of the entries created in order, and whether closing it succeeded. */
  datatype ZipArchive = ZipArchive(level: int, entries: seq<string>, closed: bool)

  /** One more file handled: the counter and the entry list grow by what that file's
      `addFile` call contributes. */
  lemma AddStep(files: seq<string>, io: seq<FileIo>, i: nat, sourceBase: string, targetBase: string)
    requires |files| == |io| && i < |io|
    ensures FailedAdds(io[..i + 1]) == FailedAdds(io[..i]) + (if Fails(io[i]) then 1 else 0)
    ensures WrittenEntries(files[..i + 1], io[..i + 1], sourceBase, targetBase) ==
            WrittenEntries(files[..i], io[..i], sourceBase, targetBase) +
            (if WritesEntry(io[i]) then [EntryName(files[i], sourceBase, targetBase)] else [])
  {
    assert files[..i + 1][..i] == files[..i];
    assert io[..i + 1][..i] == io[..i];
  }

  /** A path as `path.Clean` returns it, as far as entry naming depends on it: non-empty,
      and without a trailing slash unless it is "/" itself. */
  predicate IsCleanShape(p: string)
  {
    p != "" && (p == "/" || !EndsWithSlash(p))
  }

  /** The source paths `Pack` works on. */
  type CleanPath = p: string | IsCleanShape(p) witness "/"

  /** `Pack`: scan the walk, create the destination, add every scanned path, close the
      writer. Only a failure to create the destination is returned as an error (with
      ArchiveErrNum 1 and no archive); every other failure is only counted. `source` is
      the source path after `path.Clean`: non-empty, and without a trailing slash unless
      it is "/" itself. */
  method Pack(source: CleanPath, targetBaseDir: string, level: int, walk: seq<VisitEvent>,
              createErr: Option<IoError>, io: seq<FileIo>, closeErr: Option<IoError>)
    returns (result: PackResult, archive: Option<ZipArchive>, err: Option<IoError>)
    requires |io| == |ScannedPaths(walk)|
    requires RootOpenFails(ScannedPaths(walk), io)
    ensures fresh(result)
    ensures result.FileNum == ScannedBytes(walk) && result.ScanErrNum == ScanErrors(walk)
    ensures err == createErr
    ensures createErr.Some? ==> archive == None && result.ArchiveErrNum == 1
    ensures createErr.None? ==>
              archive == Some(ZipArchive(ClampLevel(level),
                                         WrittenEntries(ScannedPaths(walk), io, source,
                                                        ResolveTargetBase(source, targetBaseDir)),
                                         closeErr.None?)) &&
              result.ArchiveErrNum == FailedAdds(io) + (if closeErr.Some? then 1 else 0)
    ensures "/" in ScannedPaths(walk) ==> result.ArchiveErrNum >= 1
  {
    var compression := ClampLevel(level);
    result := new PackResult();
    var targetBase := ResolveTargetBase(source, targetBaseDir);

    var files, total, errNum1 := GetFilesAndFolders(walk);
    result.ScanErrNum := errNum1;
    result.FileNum := total;

    if createErr.Some? {
      result.ArchiveErrNum := result.ArchiveErrNum + 1;
      return result, None, createErr;
    }

    var entries: seq<string> := [];
    var errNum2 := 0;
    for i := 0 to |files|
      invariant result.FileNum == total && result.ScanErrNum == errNum1
      invariant errNum2 == FailedAdds(io[..i])
      invariant entries == WrittenEntries(files[..i], io[..i], source, targetBase)
    {
      AddStep(files, io, i, source, targetBase);
      var added := AddFile(files[i], source, targetBase, io[i]);
      if added.err.Some? {
        errNum2 := errNum2 + 1;
      }
      if added.entry.Some? {
        entries := entries + [added.entry.value];
      }
    }
    assert files[..|files|] == files && io[..|io|] == io;

    if "/" in files {
      RootCountsFailure(files, io);
    }
    result.ArchiveErrNum := errNum2;
    if closeErr.Some? {
      result.ArchiveErrNum := result.ArchiveErrNum + 1;
    }
    archive := Some(ZipArchive(compression, entries, closeErr.None?));
    err := None;
  }

  /** Counting failures over two runs of files adds up. */
  lemma {:induction false} FailedAddsAppend(a: seq<FileIo>, b: seq<FileIo>)
    ensures FailedAdds(a + b) == FailedAdds(a) + FailedAdds(b)
  {
    if b == [] {
      assert a + b == a;
    } else {
      var b' := b[..|b| - 1];
      assert (a + b)[..|a + b| - 1] == a + b';
      assert (a + b)[|a + b| - 1] == b[|b| - 1];
      FailedAddsAppend(a, b');
    }
  }

  /** Packing the root directory always counts an archive error: the walk reports the
      path "/", which `addFile` opens as the empty path. */
  lemma RootCountsFailure(files: seq<string>, io: seq<FileIo>)
    requires |files| == |io| && RootOpenFails(files, io)
    requires "/" in files
    ensures FailedAdds(io) >= 1
  {
    var k :| 0 <= k < |files| && files[k] == "/";
    assert io == io[..k] + [io[k]] + io[k + 1..];
    FailedAddsAppend(io[..k] + [io[k]], io[k + 1..]);
    FailedAddsAppend(io[..k], [io[k]]);
    assert [io[k]][..0] == [];
  }

  /** No file error is counted exactly when every `addFile` call returned nil
      (each path was a directory or was copied completely). */
  lemma {:induction false} FailedAddsZeroIff(io: seq<FileIo>)
    ensures FailedAdds(io) == 0 <==> forall i :: 0 <= i < |io| ==> !Fails(io[i])
  {
    if io != [] {
      var init := io[..|io| - 1];
      FailedAddsZeroIff(init);
      assert forall i :: 0 <= i < |init| ==> init[i] == io[i];
    }
  }

  /** The counter never exceeds the number of files added, and IsDirectory outcomes
      never count. */
  lemma {:induction false} FailedAddsBound(io: seq<FileIo>)
    ensures FailedAdds(io) <= |io|
    ensures (exists i :: 0 <= i < |io| && io[i].IsDirectory?) ==> FailedAdds(io) < |io|
  {
    if io != [] {
      var init := io[..|io| - 1];
      FailedAddsBound(init);
      if exists i :: 0 <= i < |io| && io[i].IsDirectory? {
        var i :| 0 <= i < |io| && io[i].IsDirectory?;
        if i < |init| {
          assert init[i] == io[i];
        }
      }
    }
  }

  /** Writing entries for two runs of files in turn gives both runs' entries in order. */
  lemma {:induction false} WrittenEntriesAppend(fa: seq<string>, ia: seq<FileIo>,
                                                fb: seq<string>, ib: seq<FileIo>,
                                                sourceBase: string, targetBase: string)
    requires |fa| == |ia| && |fb| == |ib|
    ensures WrittenEntries(fa + fb, ia + ib, sourceBase, targetBase) ==
            WrittenEntries(fa, ia, sourceBase, targetBase) + WrittenEntries(fb, ib, sourceBase, targetBase)
  {
    if ib != [] {
      var n := |ib| - 1;
      assert (fa + fb)[..|fa + fb| - 1] == fa + fb[..n];
      assert (ia + ib)[..|ia + ib| - 1] == ia + ib[..n];
      WrittenEntriesAppend(fa, ia, fb[..n], ib[..n], sourceBase, targetBase);
    } else {
      assert fa + fb == fa && ia + ib == ia;
    }
  }

  /** Every entry the archive receives is named `<targetBase>/...`. */
  lemma {:induction false} WrittenEntriesUnderBase(files: seq<string>, io: seq<FileIo>,
                                                   sourceBase: string, targetBase: string)
    requires |files| == |io|
    ensures forall k :: 0 <= k < |WrittenEntries(files, io, sourceBase, targetBase)| ==>
              UnderBase(WrittenEntries(files, io, sourceBase, targetBase)[k], targetBase)
  {
    if io != [] {
      var n := |io| - 1;
      WrittenEntriesUnderBase(files[..n], io[..n], sourceBase, targetBase);
      assert UnderBase(EntryName(files[n], sourceBase, targetBase), targetBase);
    }
  }

  /** A name is in the archive exactly when some file whose copy got under way is
      stored under it. */
  lemma {:induction false} WrittenEntriesMembership(files: seq<string>, io: seq<FileIo>,
                                                    sourceBase: string, targetBase: string, name: string)
    requires |files| == |io|
    ensures name in WrittenEntries(files, io, sourceBase, targetBase) <==>
            exists i :: 0 <= i < |io| && WritesEntry(io[i]) && EntryName(files[i], sourceBase, targetBase) == name
  {
    if io != [] {
      var n := |io| - 1;
      WrittenEntriesMembership(files[..n], io[..n], sourceBase, targetBase, name);
      if exists i :: 0 <= i < n && WritesEntry(io[..n][i]) && EntryName(files[..n][i], sourceBase, targetBase) == name {
        var i :| 0 <= i < n && WritesEntry(io[..n][i]) && EntryName(files[..n][i], sourceBase, targetBase) == name;
        assert io[i] == io[..n][i] && files[i] == files[..n][i];
      }
    }
  }

  /** One file whose `addFile` call returned nil, made unopenable, adds exactly one to
      the archive error count, and the archive keeps every other file's entry. */
  lemma OneUnreadableFile(files: seq<string>, io: seq<FileIo>, i: nat, e: IoError,
                          sourceBase: string, targetBase: string)
    requires |files| == |io| && i < |io| && !Fails(io[i])
    ensures FailedAdds(io[i := OpenFails(e)]) == FailedAdds(io) + 1
    ensures WrittenEntries(files, io[i := OpenFails(e)], sourceBase, targetBase) ==
            WrittenEntries(files[..i], io[..i], sourceBase, targetBase) +
            WrittenEntries(files[i + 1..], io[i + 1..], sourceBase, targetBase)
    ensures WrittenEntries(files, io, sourceBase, targetBase) ==
            WrittenEntries(files[..i], io[..i], sourceBase, targetBase) +
            (if io[i].Copied? then [EntryName(files[i], sourceBase, targetBase)] else []) +
            WrittenEntries(files[i + 1..], io[i + 1..], sourceBase, targetBase)
  {
    var bad := io[i := OpenFails(e)];
    assert files == files[..i] + [files[i]] + files[i + 1..];
    assert io == io[..i] + [io[i]] + io[i + 1..];
    assert bad == io[..i] + [OpenFails(e)] + io[i + 1..];
    FailedAddsAppend(io[..i] + [io[i]], io[i + 1..]);
    FailedAddsAppend(io[..i], [io[i]]);
    FailedAddsAppend(io[..i] + [OpenFails(e)], io[i + 1..]);
    FailedAddsAppend(io[..i], [OpenFails(e)]);
    assert [io[i]][..0] == [] && [OpenFails(e)][..0] == [];
    assert [files[i]][..0] == [];
    WrittenEntriesAppend(files[..i] + [files[i]], io[..i] + [io[i]], files[i + 1..], io[i + 1..], sourceBase, targetBase);
    WrittenEntriesAppend(files[..i], io[..i], [files[i]], [io[i]], sourceBase, targetBase);
    WrittenEntriesAppend(files[..i] + [files[i]], io[..i] + [OpenFails(e)], files[i + 1..], io[i + 1..], sourceBase, targetBase);
    WrittenEntriesAppend(files[..i], io[..i], [files[i]], [OpenFails(e)], sourceBase, targetBase);
  }

  // Packing a relative source "dir" holding a.txt (10 bytes) and sub/b.txt (20 bytes)
  // under "snap": the walk, and what opening each walked path does.
  const ExampleWalk := [Visited("dir", true, 0), Visited("dir/a.txt", false, 10),
                        Visited("dir/sub", true, 0), Visited("dir/sub/b.txt", false, 20)]
  const ExampleIo := [IsDirectory, Copied, IsDirectory, Copied]

  /** The example's scan records the four paths and 30 bytes, without errors, and no
      file error is counted while archiving. */
  lemma ExampleCounts()
    ensures ScannedPaths(ExampleWalk) == ["dir", "dir/a.txt", "dir/sub", "dir/sub/b.txt"]
    ensures ScannedBytes(ExampleWalk) == 30 && ScanErrors(ExampleWalk) == 0
    ensures FailedAdds(ExampleIo) == 0
  {
    var io := ExampleIo;
    assert io[..3][..2] == io[..2] && io[..2][..1] == io[..1] && io[..1][..0] == [];
    assert FailedAdds(io[..1]) == 0 && FailedAdds(io[..2]) == 0 && FailedAdds(io[..3]) == 0;
    var w := ExampleWalk;
    assert w[..3][..2] == w[..2] && w[..2][..1] == w[..1] && w[..1][..0] == [];
    assert ScannedPaths(w[..1]) == ["dir"];
    assert ScannedPaths(w[..2]) == ["dir", "dir/a.txt"];
    assert ScannedPaths(w[..3]) == ["dir", "dir/a.txt", "dir/sub"];
    assert ScannedBytes(w[..1]) == 0 && ScannedBytes(w[..2]) == 10 && ScannedBytes(w[..3]) == 10;
    assert ScanErrors(w[..1]) == 0 && ScanErrors(w[..2]) == 0 && ScanErrors(w[..3]) == 0;
  }

  /** In the example, a.txt is stored as "snap//a.txt", not "snap/a.txt". */
  lemma ExampleFirstEntry()
    ensures EntryName("dir/a.txt", "dir", "snap") == "snap//a.txt"
  {
    assert TrimLeft("dir/a.txt", "dir") == "/a.txt";
  }

  /** In the example, sub/b.txt is stored as "snap//sub/b.txt", not "snap/sub/b.txt". */
  lemma ExampleSecondEntry()
    ensures EntryName("dir/sub/b.txt", "dir", "snap") == "snap//sub/b.txt"
  {
    assert TrimLeft("dir/sub/b.txt", "dir") == "/sub/b.txt";
  }

  /** The example's archive holds exactly those two entries, in walk order. */
  lemma ExampleEntries()
    ensures WrittenEntries(["dir", "dir/a.txt", "dir/sub", "dir/sub/b.txt"], ExampleIo, "dir",
                           ResolveTargetBase("dir", "snap")) == ["snap//a.txt", "snap//sub/b.txt"]
  {
    var files := ["dir", "dir/a.txt", "dir/sub", "dir/sub/b.txt"];
    var io := ExampleIo;
    var a := EntryName("dir/a.txt", "dir", "snap");
    var b := EntryName("dir/sub/b.txt", "dir", "snap");
    assert WrittenEntries(files[..1], io[..1], "dir", "snap") == [] by {
      assert files[..1][..0] == [] && io[..1][..0] == [];
    }
    assert WrittenEntries(files[..2], io[..2], "dir", "snap") == [a] by {
      assert files[..2][..1] == files[..1] && io[..2][..1] == io[..1];
    }
    assert WrittenEntries(files[..3], io[..3], "dir", "snap") == [a] by {
      assert files[..3][..2] == files[..2] && io[..3][..2] == io[..2];
    }
    assert WrittenEntries(files, io, "dir", "snap") == [a, b];
    ExampleFirstEntry();
    ExampleSecondEntry();
    assert ResolveTargetBase("dir", "snap") == "snap";
  }
}
