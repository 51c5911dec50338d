/**
 * The two functions of Node's POSIX `path` module the controller calls on a URL pathname:
 * `basename(p)` (no suffix argument) and `extname(p)`.
 */
module PathPosix {
  import opened Wrappers

  /** `s` without its trailing '/' characters. */
  function TrimTrailingSlashes(s: string): (r: string)
    ensures |r| <= |s| && r == s[..|r|]
    ensures r == [] || r[|r| - 1] != '/'
    ensures forall i :: |r| <= i < |s| ==> s[i] == '/'
  {
    if s != [] && s[|s| - 1] == '/' then TrimTrailingSlashes(s[..|s| - 1]) else s
  }

  /** The part of `s` after its last '/', or all of `s` when it has none. */
  function LastSegment(s: string): (r: string)
    ensures '/' !in r
    ensures |r| <= |s| && r == s[|s| - |r|..]
    ensures |r| < |s| ==> s[|s| - |r| - 1] == '/'
  {
    if s == [] || s[|s| - 1] == '/' then [] else LastSegment(s[..|s| - 1]) + [s[|s| - 1]]
  }

  /**
   * `path.basename(p)`: the last non-empty segment of `p`, after the trailing slashes are
   * dropped; "" for "" and for a path made only of slashes.
   */
  function Basename(p: string): (r: string)
    ensures '/' !in r
    ensures var t := TrimTrailingSlashes(p);
      |r| <= |t| && r == t[|t| - |r|..] && (|r| < |t| ==> t[|t| - |r| - 1] == '/')
  {
    LastSegment(TrimTrailingSlashes(p))
  }

  /** The index of the last '.' in `s`. */
  function LastDot(s: string): (r: Option<nat>)
    ensures r.None? <==> '.' !in s
    ensures r.Some? ==> r.value < |s| && s[r.value] == '.' && '.' !in s[r.value + 1..]
  {
    if s == [] then None
    else if s[|s| - 1] == '.' then Some(|s| - 1)
    else
      var r := LastDot(s[..|s| - 1]);
      assert s == s[..|s| - 1] + [s[|s| - 1]];
      r
  }

  /**
   * The extension of one path segment as `extname` finds it: from the last '.' to the end,
   * except that a segment whose only dot leads it (".bashrc") and the segment ".." have none.
   */
  function SegmentExtension(b: string): (r: string)
    ensures r != "" ==> r[0] == '.' && '.' !in r[1..]
    ensures |r| <= |b| && r == b[|b| - |r|..]
    ensures '.' !in b ==> r == ""
    ensures r == "" <==> b == [] || '.' !in b[1..] || b == ".."
  {
    match LastDot(b)
    case None => ""
    case Some(i) =>
      if i == 0 || b == ".." then ""
      else
        assert b[i..][1..] == b[i + 1..];
        assert b[1..][i - 1] == '.';
        b[i..]
  }

  /** `path.extname(p)`: the extension of the basename of `p`. */
  function Extname(p: string): (r: string)
    ensures r != "" ==> r[0] == '.' && '.' !in r[1..]
    ensures '.' !in Basename(p) ==> r == ""
  {
    SegmentExtension(Basename(p))
  }

  /**
   * `extname` reads the basename: the extension is a suffix of it, and it is empty exactly
   * when the basename is empty, has no '.' after its first character, or is "..".
   */
  lemma ExtnameOfBasename(p: string)
    ensures var b := Basename(p); var r := Extname(p);
      && |r| <= |b| && r == b[|b| - |r|..]
      && (r == "" <==> b == [] || '.' !in b[1..] || b == "..")
  {
    var b := Basename(p);
    var r := SegmentExtension(b);
    assert |r| <= |b| && r == b[|b| - |r|..];
    assert r == "" <==> b == [] || '.' !in b[1..] || b == "..";
  }
}
