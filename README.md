# packdir, modelled in Dafny

`packdir` snapshots a directory into a zip archive. `Pack` clamps the compression
level, works out the base directory that every archive entry is stored under, walks the
source tree (`getFilesAndFolders`), creates the destination file, adds every walked
path with `addFile` and closes the zip writer. Per-file problems are counted in a
`PackResult` instead of aborting; only a destination that cannot be created is
returned as an error.

This project models that pipeline and proves what it does:

- `GoLib` (golib.dfy): the two Go library helpers whose exact behaviour decides the
  entry names: `strings.TrimLeft`, a cutset trim, and `path.Base`.
- `Scanner` (scanner.dfy): `getFilesAndFolders` as a method that folds the walk's
  callback over a sequence of visit events, proved against the functions
  `ScannedPaths`, `ScannedBytes` and `ScanErrors`.
- `PackDir` (packdir.dfy): level clamping, target-base resolution, the entry name of a
  path, `addFile` as a function of what the file system does, the `PackResult` class and
  `Pack` as a method whose loop is proved against `FailedAdds` and `WrittenEntries`.
- `Options` (options.dfy): the optional value used for Go's nil-or-value results.

The file system and the zip writer are inputs: the walk is a sequence of
`VisitEvent`s, each scanned path has a `FileIo` outcome (open, stat, create or copy
fails, a directory, or copied), and creating the destination and closing the writer
each either succeed or fail with an `IoError`. `Pack` requires exactly one `FileIo`
per scanned path, and an open failure for the path `"/"`: `addFile` turns that path
into the empty path before opening it (packdir.go:53-55, 62), and the empty path never
opens. The archive is modelled by what the writer receives: the
registered level, the entry names in order, and whether closing succeeded.

Where the code and its own doc comment on `Pack` (packdir.go:122-131) differ, the
model follows the code:

- The doc comment says an omitted `targetBaseDir` becomes "snapshot". The code uses
  `path.Base` of the cleaned source and picks "snapshot" only when that base is "."
  (packdir.go:146-151), so source `data/run1` gives base `run1`
  (`ResolveDerivedBase`).
- Entry names are built with `strings.TrimLeft(file, sourceBase)`, which removes
  leading characters that occur anywhere in the source path. It does not remove the
  source path as a prefix. For a relative source such as `dir`, the trim stops at the
  separator, so `dir/a.txt` is stored as `snap//a.txt` and not as `snap/a.txt`
  (`ExampleEntries`). For a source that contains a slash, the trim can also eat the
  start of a file name: with source `/home/u/dir`, `/home/u/dir/dim.txt` becomes
  `snap/.txt` (`EntryNameOvertrims`).

Other behaviour of the code the model keeps:

- `PackResult.FileNum` is set to the scanned byte total, not to a count of entries
  (packdir.go:160).
- Only the path `"/"` itself loses its leading slash (`file[0:] == "/"` compares the
  whole string). Exactly one trailing slash is removed from the target base, and only
  after the `"."` check: `"./"` becomes `"."` and `"/"` becomes the empty base.
- A directory that opens and stats returns nil from `addFile`, so it is neither
  archived nor counted as an error. The directory `"/"` is the exception: it is opened
  as the empty path, which fails, so it is counted (`RootCountsFailure`).
- A failed copy still leaves a partly written entry in the archive.
- Two walked files can share one entry name, so the archive can hold duplicate names.
  For a source containing a slash, any run of source characters right after the
  source's own slash is trimmed as well: with source `/srv`, both `/srv/x` and
  `/srv/s/x` are stored as `srv/x` (`EntryNamesCollide`).

## Model

| member | source | states |
|---|---|---|
| GoLib.TrimLeft | packdir.go:56 | `strings.TrimLeft` never lengthens its input; it removes the longest leading run of cutset characters, as TrimLeftResult and TrimLeftRemovesLongestRun state |
| GoLib.TrimLeftResult | packdir.go:56 | what `strings.TrimLeft` leaves is a suffix of the input; every removed character is in the cutset; the first kept character is not |
| GoLib.TrimLeftRemovesLongestRun | packdir.go:56 | a leading run of cutset characters that ends at a character outside the cutset, or at the end of the input, is exactly what the trim removes |
| GoLib.TrimLeftSkipsRun | packdir.go:56 | a prefix made only of cutset characters is trimmed away whatever follows it |
| GoLib.Base | packdir.go:147 | `path.Base` of the empty path is "."; the base is never empty; it is "/" or has no slash; it is "/" exactly when the path is non-empty and all slashes |
| GoLib.BaseOfElement | packdir.go:147 | a single element without slashes is its own base |
| GoLib.BaseOfJoin | packdir.go:147 | the base of `dir/name` is `name` |
| GoLib.BaseIgnoresTrailingSlash | packdir.go:147 | a trailing slash does not change the base of a non-empty path |
| PackDir.ClampLevel | packdir.go:135-140 | a level in -2..9 is kept; any other level becomes 2; the result is always in -2..9 |
| PackDir.ResolveTargetBase | packdir.go:144-154 | "." becomes "snapshot"; another chosen base loses exactly one trailing slash; an empty choice becomes the source's base, or "snapshot" if that is ".", or "" if it is "/" |
| PackDir.ResolveDerivedBase | packdir.go:146-148 | with no base chosen, a source `dir/name` gives `name` |
| PackDir.ResolveSuppliedBaseCases | packdir.go:149-154 | "x//" gives "x/", "./" gives "." (not "snapshot"), "/" gives "" |
| PackDir.ResolveCurrentDirectory | packdir.go:146-151 | source "." with no base chosen gives "snapshot" |
| PackDir.ResolveRootDirectory | packdir.go:146-154 | source "/" with no base chosen gives the empty base |
| PackDir.EntryName | packdir.go:56 | every entry name starts with the target base followed by "/" |
| PackDir.EntryNameRest | packdir.go:53-56 | after `<base>/` comes a suffix of the file path that does not start with a source character; every character cut off is in the source; the path "/" gives `<base>/` |
| PackDir.EntryNameOfRelativeSource | packdir.go:56 | for a source without slashes, `src/rest` is stored as `<base>//rest` |
| PackDir.EntryNameOfSourceWithSlash | packdir.go:56 | for a source containing a slash, `src/name` is stored as `<base>/name` when the name does not start with a source character |
| PackDir.EntryNameOvertrims | packdir.go:56 | for a source containing a slash, `src/name` is not stored as `<base>/name` when the name starts with a source character |
| PackDir.EntryNamesCollide | packdir.go:56 | for a source containing a slash, `src/<run1><rest>` and `src/<run2><rest>` get the same entry name `<base>/<rest>` whenever both runs are made of source characters and the rest starts outside them |
| PackDir.AddFile | packdir.go:52-82 | a failing open, stat, create or copy returns that step's error; a directory returns nil and writes nothing; an entry named EntryName exists once create succeeds, even if the copy then fails |
| PackDir.PackResult.constructor | packdir.go:86-90 | a new result has all three counters at 0 |
| PackDir.AddStep | packdir.go:196-208 | one more `addFile` call adds 1 to the counter exactly when it fails, and appends its entry exactly when one was written |
| PackDir.Pack | packdir.go:132-228 | for a source shaped as `path.Clean` returns it (non-empty, no trailing slash unless "/"): FileNum is the scanned byte total and ScanErrNum the scan's error count; the returned error is exactly the creation error; if creation fails there is no archive and ArchiveErrNum is 1; otherwise the archive has the clamped level and WrittenEntries, and ArchiveErrNum is the failed adds plus 1 if close failed; when the walk reports the path "/", ArchiveErrNum is at least 1 |
| PackDir.RootCountsFailure | packdir.go:53-65 | when the path "/" is among the scanned paths, its `addFile` call opens the empty path and fails, so at least one file error is counted |
| PackDir.FailedAddsAppend | packdir.go:196-208 | failures counted over two runs of files add up |
| PackDir.FailedAddsZeroIff | packdir.go:196-209 | no file error is counted exactly when every `addFile` call returned nil |
| PackDir.FailedAddsBound | packdir.go:68-69 | the counter never exceeds the number of paths, and is below it when some `addFile` call ends in the IsDirectory outcome |
| PackDir.WrittenEntriesAppend | packdir.go:196-208 | entries for two runs of files are the first run's entries followed by the second's |
| PackDir.WrittenEntriesUnderBase | packdir.go:72 | every entry the archive receives is named `<targetBase>/...` |
| PackDir.WrittenEntriesMembership | packdir.go:72 | a name is in the archive exactly when some path whose entry was created is stored under it |
| PackDir.OneUnreadableFile | packdir.go:62-66 | making one handled file unreadable adds exactly 1 to the count and removes only that file's entry |
| PackDir.ExampleCounts | packdir.go:21-50 | the walk of `dir` with a.txt (10 bytes) and sub/b.txt (20 bytes) records four paths, 30 bytes and no errors, and no file error is counted |
| PackDir.ExampleFirstEntry | packdir.go:56 | `dir/a.txt` under source `dir` and base `snap` is stored as `snap//a.txt` |
| PackDir.ExampleSecondEntry | packdir.go:56 | `dir/sub/b.txt` under source `dir` and base `snap` is stored as `snap//sub/b.txt` |
| PackDir.ExampleEntries | packdir.go:196-208 | that example's archive holds exactly `snap//a.txt` and `snap//sub/b.txt`, in walk order |
| Scanner.GetFilesAndFolders | packdir.go:21-50 | the callback loop returns ScannedPaths, ScannedBytes and ScanErrors of the walk |
| Scanner.ScanPartition | packdir.go:26-40 | errors plus recorded paths equals the number of visit events |
| Scanner.ScanAppend | packdir.go:26-40 | scanning two parts of a walk and joining the results is scanning the whole walk, for paths, bytes and errors |
| Scanner.VisitedPathPosition | packdir.go:39 | the path of an error-free event is at the position given by the number of error-free events before it, so the results keep visit order |
| Scanner.ScannedPathsMembership | packdir.go:26-40 | a path is recorded exactly when some error-free event visited it |
| Scanner.NoRegularFilesNoBytes | packdir.go:35-37 | directories and error events add nothing to the byte total |

## Left out

- `path.Clean` is not modelled: `Pack` takes the source path after cleaning, typed
  `CleanPath` (non-empty, no trailing slash unless it is "/").
- The file system (`filepath.Walk`, `os.Open`, `Stat`, `os.Create`, closing files) is
  replaced by the visit events and the `FileIo`, create and close outcomes. The walk's
  lexical order is whatever order the events are given in.
- The zip framing, the DEFLATE codec and `io.CopyBuffer` with its 64 KiB buffer are not
  modelled: the archive is its level, its entry names and whether it was closed, not
  its bytes. The entry kind is not modelled either: the cutset trim can leave nothing,
  so source `/data` and file `/data/a` give the name `snap/`, which the zip writer
  treats as a directory entry whose content cannot be written. The model lists it like
  any other entry and lets the copy have any outcome.
- The error of the deferred `outFile.Close()` is discarded by the code and is not
  modelled.
- Console output is not modelled: `log.Printf`, `fmt.Printf`, `units.HumanSize`, the
  `uiprogress` bar and the `PRINT_INFO`, `PRINT_ERRORS`, `PROGRESSBAR` and `VERBOSE`
  flags only affect output. Note that the message at packdir.go:138 prints the level
  after it has already been reset to 2.
- Scanner.GetFilesAndFolders: the byte total and the error count are `int64` in the
  code; wrap-around past 2^63 - 1 is not modelled.
- PackDir.Pack: `ArchiveErrNum` is `int64` in the code; wrap-around is not modelled.
- Strings are sequences of characters. Go's `strings.TrimLeft` decodes UTF-8, and its
  handling of invalid byte sequences is not modelled.
