/** The scanner (`getFilesAndFolders`): a directory walk reported as a sequence of visit
    events, folded into the list of visited paths, the byte total of the regular files
    and the number of walk errors. The walk itself (`filepath.Walk`, its lexical order,
    the `os.FileInfo` it hands over) is the event sequence given as input. */
module Scanner {

  /** One call of the walk's callback. */
  datatype VisitEvent =
      // the walk reached `path` without error; `size` is `info.Size()`
    | Visited(path: string, isDir: bool, size: int)
      // the walk reported an error for `path`
    | WalkError(path: string)

  /** The paths the scan records: those of the error-free events, in visit order. */
  function ScannedPaths(events: seq<VisitEvent>): seq<string>
  {
    if events == [] then []
    else
      var e := events[|events| - 1];
      ScannedPaths(events[..|events| - 1]) + (if e.Visited? then [e.path] else [])
  }

  /** The byte total of the scan: the sizes of the error-free events that are not
      directories. */
  function ScannedBytes(events: seq<VisitEvent>): int
  {
    if events == [] then 0
    else
      var e := events[|events| - 1];
      ScannedBytes(events[..|events| - 1]) + (if e.Visited? && !e.isDir then e.size else 0)
  }

  /** The number of error events. */
  function ScanErrors(events: seq<VisitEvent>): nat
  {
    if events == [] then 0
    else ScanErrors(events[..|events| - 1]) + (if events[|events| - 1].WalkError? then 1 else 0)
  }

  /** `getFilesAndFolders`: the walk callback applied to every event in turn. An error
      event only bumps the error count; any other event appends its path, and adds its
      size unless it is a directory. */
  method GetFilesAndFolders(events: seq<VisitEvent>) returns (results: seq<string>, size: int, errors: int)
    ensures results == ScannedPaths(events)
    ensures size == ScannedBytes(events)
    ensures errors == ScanErrors(events)
  {
    results, size, errors := [], 0, 0;
    for i := 0 to |events|
      invariant results == ScannedPaths(events[..i])
      invariant size == ScannedBytes(events[..i])
      invariant errors == ScanErrors(events[..i])
    {
      assert events[..i + 1][..i] == events[..i];
      match events[i]
      case WalkError(_) =>
        errors := errors + 1;
      case Visited(path, isDir, entrySize) =>
        if !isDir {
          size := size + entrySize;
        }
        results := results + [path];
    }
    assert events[..|events|] == events;
  }

  /** Every event is either counted as an error or recorded as a path, never both. */
  lemma {:induction false} ScanPartition(events: seq<VisitEvent>)
    ensures ScanErrors(events) + |ScannedPaths(events)| == |events|
  {
    if events != [] {
      ScanPartition(events[..|events| - 1]);
    }
  }

  /** Scanning a walk in two halves and joining the results is scanning it whole:
      the scan keeps the order of the walk and looks at each event on its own. */
  lemma {:induction false} ScanAppend(a: seq<VisitEvent>, b: seq<VisitEvent>)
    ensures ScannedPaths(a + b) == ScannedPaths(a) + ScannedPaths(b)
    ensures ScannedBytes(a + b) == ScannedBytes(a) + ScannedBytes(b)
    ensures ScanErrors(a + b) == ScanErrors(a) + ScanErrors(b)
  {
    if b == [] {
      assert a + b == a;
    } else {
      var b' := b[..|b| - 1];
      assert (a + b)[..|a + b| - 1] == a + b';
      assert (a + b)[|a + b| - 1] == b[|b| - 1];
      ScanAppend(a, b');
    }
  }

  /** The path of an error-free event sits in the results at the position given by the
      number of error-free events before it. */
  lemma VisitedPathPosition(events: seq<VisitEvent>, i: nat)
    requires i < |events| && events[i].Visited?
    ensures |ScannedPaths(events[..i])| < |ScannedPaths(events)|
    ensures ScannedPaths(events)[|ScannedPaths(events[..i])|] == events[i].path
  {
    var before, after := events[..i], events[i + 1..];
    assert events == before + [events[i]] + after;
    ScanAppend(before + [events[i]], after);
    ScanAppend(before, [events[i]]);
    assert [events[i]][..0] == [];
  }

  /** A path is in the results exactly when some error-free event visited it. */
  lemma {:induction false} ScannedPathsMembership(events: seq<VisitEvent>, p: string)
    ensures p in ScannedPaths(events) <==>
            exists i :: 0 <= i < |events| && events[i].Visited? && events[i].path == p
  {
    if events != [] {
      var init := events[..|events| - 1];
      ScannedPathsMembership(init, p);
      if exists i :: 0 <= i < |init| && init[i].Visited? && init[i].path == p {
        var i :| 0 <= i < |init| && init[i].Visited? && init[i].path == p;
        assert events[i] == init[i];
      }
    }
  }

  /** Directories and error events add nothing to the byte total. */
  lemma {:induction false} NoRegularFilesNoBytes(events: seq<VisitEvent>)
    requires forall i :: 0 <= i < |events| ==> events[i].WalkError? || events[i].isDir
    ensures ScannedBytes(events) == 0
  {
    if events != [] {
      NoRegularFilesNoBytes(events[..|events| - 1]);
    }
  }
}
