/** The two Go standard-library string helpers whose exact behaviour decides the archive's
    entry names: `strings.TrimLeft` (a cutset trim) and `path.Base`. Strings are sequences
    of characters; Go's UTF-8 decoding of byte strings is not modelled. */
module GoLib {

  /** The string is non-empty and its last character is a slash. */
  predicate EndsWithSlash(s: string)
  {
    |s| > 0 && s[|s| - 1] == '/'
  }

  /** `strings.TrimLeft(s, cutset)`: removes the longest leading run of characters of `s`
      that each occur somewhere in `cutset`. This is NOT removal of `cutset` as a prefix.
      (TrimLeftResult states what the result is.) */
  function TrimLeft(s: string, cutset: string): (r: string)
    ensures |r| <= |s|
  {
    if s != [] && s[0] in cutset then TrimLeft(s[1..], cutset) else s
  }

  /** What TrimLeft leaves is a suffix of `s`; every character it removed is in the
      cutset; and the first character it keeps is not, so the run removed is the
      longest one. */
  lemma {:induction false} TrimLeftResult(s: string, cutset: string)
    ensures var r := TrimLeft(s, cutset);
            r == s[|s| - |r|..]
    ensures var r := TrimLeft(s, cutset);
            forall i :: 0 <= i < |s| - |r| ==> s[i] in cutset
    ensures var r := TrimLeft(s, cutset);
            r != [] ==> r[0] !in cutset
  {
    if s != [] && s[0] in cutset {
      TrimLeftResult(s[1..], cutset);
      var r := TrimLeft(s, cutset);
      assert s[1..][|s| - 1 - |r|..] == s[|s| - |r|..];
      assert forall i :: 1 <= i < |s| ==> s[i] == s[1..][i - 1];
    }
  }

  /** The properties of TrimLeftResult pin the result down: a leading run of cutset
      characters of length `k` that stops at a character outside the cutset (or at the
      end) is exactly what TrimLeft removes. */
  lemma TrimLeftRemovesLongestRun(s: string, cutset: string, k: nat)
    requires k <= |s|
    requires forall i :: 0 <= i < k ==> s[i] in cutset
    requires k == |s| || s[k] !in cutset
    ensures TrimLeft(s, cutset) == s[k..]
  {
    TrimLeftResult(s, cutset);
  }

  /** A leading run of cutset characters is trimmed whatever follows it. */
  lemma {:induction false} TrimLeftSkipsRun(run: string, s: string, cutset: string)
    requires forall i :: 0 <= i < |run| ==> run[i] in cutset
    ensures TrimLeft(run + s, cutset) == TrimLeft(s, cutset)
  {
    if run != [] {
      assert (run + s)[0] == run[0] && run[0] in cutset;
      assert (run + s)[1..] == run[1..] + s;
      TrimLeftSkipsRun(run[1..], s, cutset);
    } else {
      assert run + s == s;
    }
  }

  /** Go's loop in `path.Base` that strips every trailing slash. */
  function TrimTrailingSlashes(p: string): (r: string)
    ensures |r| <= |p| && r == p[..|r|]
    ensures !EndsWithSlash(r)
    ensures forall i :: |r| <= i < |p| ==> p[i] == '/'
  {
    if EndsWithSlash(p) then TrimTrailingSlashes(p[..|p| - 1]) else p
  }

  /** The index of the last slash of `p`, or -1 when there is none
      (Go's `LastIndexByte(p, '/')`). */
  function LastSlash(p: string): (i: int)
    ensures -1 <= i < |p|
    ensures i >= 0 ==> p[i] == '/'
    ensures forall j :: i < j < |p| ==> p[j] != '/'
  {
    if p == [] then -1
    else if p[|p| - 1] == '/' then |p| - 1
    else LastSlash(p[..|p| - 1])
  }

  /** `path.Base(p)`: the last slash-separated element of `p` once trailing slashes are
      removed; "." for the empty path and "/" for a path made only of slashes. */
  function Base(p: string): (r: string)
    ensures p == [] ==> r == "."
    ensures r != []
    ensures r == "/" || '/' !in r
    ensures r == "/" <==> p != [] && forall i :: 0 <= i < |p| ==> p[i] == '/'
  {
    if p == [] then "."
    else
      var t := TrimTrailingSlashes(p);
      var last := t[LastSlash(t) + 1..];
      if last == [] then "/" else last
  }

  /** A single element without slashes is its own base. */
  lemma BaseOfElement(name: string)
    requires name != [] && '/' !in name
    ensures Base(name) == name
  {
    assert TrimTrailingSlashes(name) == name;
    assert LastSlash(name) == -1;
  }

  /** The base of `dir/name` is `name`, whatever `dir` is. */
  lemma BaseOfJoin(dir: string, name: string)
    requires name != [] && '/' !in name
    ensures Base(dir + "/" + name) == name
  {
    var p := dir + "/" + name;
    assert p[|p| - 1] == name[|name| - 1];
    assert !EndsWithSlash(p);
    assert TrimTrailingSlashes(p) == p;
    var i := LastSlash(p);
    assert p[|dir|] == '/';
    assert i == |dir|;
    assert p[i + 1..] == name;
  }

  /** One trailing slash does not change the base of a non-empty path. */
  lemma BaseIgnoresTrailingSlash(p: string)
    requires p != []
    ensures Base(p + "/") == Base(p)
  {
    var q := p + "/";
    assert EndsWithSlash(q);
    assert q[..|q| - 1] == p;
    assert TrimTrailingSlashes(q) == TrimTrailingSlashes(p);
  }
}
