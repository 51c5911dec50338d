/**
 * The filename sanitiser of the media-file handler and the name the attachment is given.
 * The sanitiser is three global regular-expression replacements:
 *   1. every maximal run of characters outside `[a-z0-9_-]` (case-insensitive) becomes "-",
 *   2. every run of "-" becomes a single "-",
 *   3. a leading "-" and a trailing "-" are removed.
 */
module Filename {
  import opened Wrappers
  import opened JsValues
  import PathPosix

  /** `[a-z0-9_-]` under the `i` flag: ASCII letters of either case, digits, '_' and '-'. */
  predicate IsAllowed(c: char)
  {
    'a' <= c <= 'z' || 'A' <= c <= 'Z' || '0' <= c <= '9' || c == '_' || c == '-'
  }

  predicate IsDisallowed(c: char)
  {
    !IsAllowed(c)
  }

  predicate IsHyphen(c: char)
  {
    c == '-'
  }

  /** An allowed character other than the hyphen: the characters that carry a name's content. */
  predicate IsWordChar(c: char)
  {
    IsAllowed(c) && c != '-'
  }

  predicate AllAllowed(s: string)
  {
    forall i :: 0 <= i < |s| ==> IsAllowed(s[i])
  }

  predicate NoDoubleHyphen(s: string)
  {
    forall i :: 0 <= i < |s| - 1 ==> !(s[i] == '-' && s[i + 1] == '-')
  }

  predicate NoEdgeHyphen(s: string)
  {
    s != [] ==> s[0] != '-' && s[|s| - 1] != '-'
  }

  /** The shape every sanitised name has. */
  predicate IsSanitized(s: string)
  {
    AllAllowed(s) && NoDoubleHyphen(s) && NoEdgeHyphen(s)
  }

  /** The word characters of `s`, in order. */
  function WordChars(s: string): string
  {
    if s == [] then [] else (if IsWordChar(s[0]) then [s[0]] else []) + WordChars(s[1..])
  }

  lemma {:induction false} WordCharsAppend(a: string, b: string)
    ensures WordChars(a + b) == WordChars(a) + WordChars(b)
  {
    if a == [] {
      assert a + b == b;
    } else {
      var head := if IsWordChar(a[0]) then [a[0]] else [];
      assert (a + b)[0] == a[0] && (a + b)[1..] == a[1..] + b;
      assert WordChars(a + b) == head + WordChars(a[1..] + b);
      WordCharsAppend(a[1..], b);
      assert head + (WordChars(a[1..]) + WordChars(b)) == (head + WordChars(a[1..])) + WordChars(b);
    }
  }

  lemma {:induction false} WordCharsEmpty(s: string)
    requires WordChars(s) == []
    ensures forall i :: 0 <= i < |s| ==> !IsWordChar(s[i])
  {
    if s != [] {
      WordCharsEmpty(s[1..]);
      assert forall i :: 1 <= i < |s| ==> s[i] == s[1..][i - 1];
    }
  }

  /** What is left of `s` after its leading run of characters satisfying `p`. */
  function SkipRun(s: string, p: char -> bool): (r: string)
    ensures |r| <= |s| && r == s[|s| - |r|..]
    ensures forall i :: 0 <= i < |s| - |r| ==> p(s[i])
    ensures r != [] ==> !p(r[0])
  {
    if s != [] && p(s[0]) then SkipRun(s[1..], p) else s
  }

  /** One global replacement of `[class]+` by "-": each maximal run of characters satisfying `p` becomes one hyphen. */
  function ReplaceRuns(s: string, p: char -> bool): (r: string)
    ensures r == [] <==> s == []
    ensures forall i :: 0 <= i < |r| ==> r[i] == '-' || (!p(r[i]) && r[i] in s)
    ensures p('-') ==> NoDoubleHyphen(r)
    decreases |s|
  {
    if s == [] then []
    else if p(s[0]) then
      var rest := SkipRun(s[1..], p);
      assert forall c :: c in rest ==> c in s;
      "-" + ReplaceRuns(rest, p)
    else
      [s[0]] + ReplaceRuns(s[1..], p)
  }

  lemma {:induction false} SkipRunKeepsWordChars(s: string, p: char -> bool)
    requires forall c :: p(c) ==> !IsWordChar(c)
    ensures WordChars(SkipRun(s, p)) == WordChars(s)
  {
    if s != [] && p(s[0]) {
      SkipRunKeepsWordChars(s[1..], p);
    }
  }

  /** A replacement whose class holds no word character keeps the word characters, in order. */
  lemma {:induction false} ReplaceRunsKeepsWordChars(s: string, p: char -> bool)
    requires forall c :: p(c) ==> !IsWordChar(c)
    ensures WordChars(ReplaceRuns(s, p)) == WordChars(s)
    decreases |s|
  {
    if s != [] {
      if p(s[0]) {
        var rest := SkipRun(s[1..], p);
        SkipRunKeepsWordChars(s[1..], p);
        ReplaceRunsKeepsWordChars(rest, p);
        WordCharsAppend("-", ReplaceRuns(rest, p));
      } else {
        ReplaceRunsKeepsWordChars(s[1..], p);
        WordCharsAppend([s[0]], ReplaceRuns(s[1..], p));
      }
    }
  }

  /** A string with no run of two class characters, all of them hyphens, is left as it is. */
  lemma {:induction false} ReplaceRunsIdentity(s: string, p: char -> bool)
    requires forall i :: 0 <= i < |s| ==> p(s[i]) ==> s[i] == '-'
    requires forall i :: 0 <= i < |s| - 1 ==> !(p(s[i]) && p(s[i + 1]))
    ensures ReplaceRuns(s, p) == s
  {
    if s != [] {
      ReplaceRunsIdentity(s[1..], p);
      if p(s[0]) {
        assert SkipRun(s[1..], p) == s[1..];
      }
      assert s == [s[0]] + s[1..];
    }
  }

  /**
   * Replacement 3: `/(^-|-$)/g` replaced by "" removes one leading and one trailing hyphen:
   * the result is the infix of `s` after a leading hyphen, shortened by one exactly when
   * what remains ends in a hyphen.
   */
  function TrimHyphens(s: string): (r: string)
    ensures var lead := if s != [] && s[0] == '-' then 1 else 0;
      && lead + |r| <= |s| && r == s[lead..lead + |r|]
      && |s| - lead - 1 <= |r|
      && (|r| < |s| - lead <==> |s| > lead && s[|s| - 1] == '-')
    ensures WordChars(r) == WordChars(s)
    ensures AllAllowed(s) ==> AllAllowed(r)
    ensures NoDoubleHyphen(s) ==> NoDoubleHyphen(r) && NoEdgeHyphen(r)
    ensures NoEdgeHyphen(s) ==> r == s
  {
    var t := if s != [] && s[0] == '-' then s[1..] else s;
    assert WordChars(t) == WordChars(s) by {
      if s != [] && s[0] == '-' {
        assert s == "-" + t;
        WordCharsAppend("-", t);
      }
    }
    if t != [] && t[|t| - 1] == '-' then
      var u := t[..|t| - 1];
      assert t == u + "-";
      WordCharsAppend(u, "-");
      u
    else
      t
  }

  /** `sanitizeFilename(name)`. */
  function Sanitize(name: string): (r: string)
    ensures IsSanitized(r)
    ensures '.' !in r
    ensures WordChars(r) == WordChars(name)
  {
    var once := ReplaceRuns(name, IsDisallowed);
    var collapsed := ReplaceRuns(once, IsHyphen);
    CollapsedShape(name);
    var r := TrimHyphens(collapsed);
    AllowedHasNoDot(r);
    r
  }

  /** After the first two replacements every character is allowed, no two hyphens touch, and the word characters are kept. */
  lemma CollapsedShape(name: string)
    ensures var c := ReplaceRuns(ReplaceRuns(name, IsDisallowed), IsHyphen);
      AllAllowed(c) && NoDoubleHyphen(c) && WordChars(c) == WordChars(name)
  {
    var once := ReplaceRuns(name, IsDisallowed);
    ReplaceRunsKeepsWordChars(name, IsDisallowed);
    ReplaceRunsKeepsWordChars(once, IsHyphen);
    assert AllAllowed(once);
  }

  /** '.' is outside the allowed class. */
  lemma AllowedHasNoDot(s: string)
    requires AllAllowed(s)
    ensures '.' !in s
  {
  }

  /** A sanitised name is its own sanitisation. */
  lemma {:induction false} SanitizeFixesSanitized(s: string)
    requires IsSanitized(s)
    ensures Sanitize(s) == s
  {
    ReplaceRunsIdentity(s, IsDisallowed);
    ReplaceRunsIdentity(s, IsHyphen);
  }

  /** Sanitising twice is sanitising once. */
  lemma {:induction false} SanitizeIdempotent(name: string)
    ensures Sanitize(Sanitize(name)) == Sanitize(name)
  {
    SanitizeFixesSanitized(Sanitize(name));
  }

  /** A name sanitises to "" exactly when it has no letter, digit or underscore. */
  lemma {:induction false} SanitizeEmptyIff(name: string)
    ensures Sanitize(name) == "" <==> forall i :: 0 <= i < |name| ==> !IsWordChar(name[i])
  {
    var r := Sanitize(name);
    if r == "" {
      WordCharsEmpty(name);
    } else {
      assert IsWordChar(r[0]);
      assert WordChars(r) != [];
      if forall i :: 0 <= i < |name| ==> !IsWordChar(name[i]) {
        WordCharsNone(name);
      }
    }
  }

  lemma {:induction false} WordCharsNone(s: string)
    requires forall i :: 0 <= i < |s| ==> !IsWordChar(s[i])
    ensures WordChars(s) == []
  {
    if s != [] {
      WordCharsNone(s[1..]);
    }
  }

  const FALLBACK_BASE := "media"
  const FALLBACK_EXTENSION := ".mp4"

  /** `path.basename(parsedUrl.pathname) || "media"`. */
  function OriginalBase(pathname: string): (r: string)
    ensures r != "" && '/' !in r
  {
    Or(PathPosix.Basename(pathname), FALLBACK_BASE)
  }

  lemma {:induction false} FallbackBaseIsSanitized()
    ensures IsSanitized(FALLBACK_BASE) && '.' !in FALLBACK_BASE
  {
    assert FALLBACK_BASE == ['m', 'e', 'd', 'i', 'a'];
  }

  /** `sanitizeFilename(filename || originalBase) || "media"`. */
  function SafeBase(filename: Option<string>, pathname: string): (r: string)
    ensures r != "" && IsSanitized(r) && '.' !in r
    ensures filename.Some? && filename.value != "" && Sanitize(filename.value) != "" ==> r == Sanitize(filename.value)
    ensures filename.Some? && filename.value != "" && Sanitize(filename.value) == "" ==> r == FALLBACK_BASE
    ensures (filename.None? || filename.value == "") ==> r == Or(Sanitize(OriginalBase(pathname)), FALLBACK_BASE)
  {
    var requested := if filename.Some? then filename.value else "";
    FallbackBaseIsSanitized();
    Or(Sanitize(Or(requested, OriginalBase(pathname))), FALLBACK_BASE)
  }

  /** `pat` occurs in `s` at index `i`. */
  predicate OccursAt(s: string, pat: string, i: nat)
  {
    i + |pat| <= |s| && s[i..i + |pat|] == pat
  }

  /** The first index from `from` on where `pat` occurs. */
  function IndexFrom(s: string, pat: string, from: nat): (r: Option<nat>)
    ensures r.Some? ==> from <= r.value && OccursAt(s, pat, r.value)
    ensures r.Some? ==> forall j: nat :: from <= j < r.value ==> !OccursAt(s, pat, j)
    ensures r.None? ==> forall j: nat :: from <= j ==> !OccursAt(s, pat, j)
    decreases |s| - from
  {
    if from + |pat| > |s| then None
    else if s[from..from + |pat|] == pat then Some(from)
    else IndexFrom(s, pat, from + 1)
  }

  /** `s.indexOf(pat)`: the first occurrence, or none when `pat` occurs nowhere. */
  function IndexOf(s: string, pat: string): (r: Option<nat>)
    ensures r.Some? ==> OccursAt(s, pat, r.value) && forall j: nat :: j < r.value ==> !OccursAt(s, pat, j)
    ensures r.None? <==> forall j: nat :: !OccursAt(s, pat, j)
    ensures pat == [] ==> r == Some(0)
  {
    IndexFrom(s, pat, 0)
  }

  /**
   * `s.replace(pat, rep)` with a string pattern and a replacement holding no `$`: the first
   * occurrence only, replaced by `rep` literally. The `$` patterns of a replacement string
   * (`$&`, `$$`, `` $` ``, `$'`) are not expanded; the one call site replaces by "".
   */
  function ReplaceFirst(s: string, pat: string, rep: string): (r: string)
    ensures (forall j: nat :: !OccursAt(s, pat, j)) ==> r == s
    ensures forall i: nat :: OccursAt(s, pat, i) && (forall j: nat :: j < i ==> !OccursAt(s, pat, j)) ==>
      r == s[..i] + rep + s[i + |pat|..]
  {
    match IndexOf(s, pat)
    case None => s
    case Some(i) => s[..i] + rep + s[i + |pat|..]
  }

  /** Replacing the empty pattern inserts the replacement at the front. */
  lemma {:induction false} ReplaceEmptyPattern(s: string)
    ensures ReplaceFirst(s, "", "") == s
  {
    assert IndexOf(s, "") == Some(0);
    assert s[..0] + "" + s[0..] == s;
  }

  /** A name without a dot has no extension. */
  lemma {:induction false} NoDotNoExtension(s: string)
    requires '.' !in s
    ensures PathPosix.Extname(s) == ""
  {
    var t := PathPosix.TrimTrailingSlashes(s);
    var b := PathPosix.Basename(s);
    assert forall i :: 0 <= i < |b| ==> b[i] == t[|t| - |b| + i] == s[|t| - |b| + i];
  }

  lemma {:induction false} FallbackExtensionShape()
    ensures FALLBACK_EXTENSION != "" && FALLBACK_EXTENSION[0] == '.' && '.' !in FALLBACK_EXTENSION[1..]
  {
    assert FALLBACK_EXTENSION[1..] == ['m', 'p', '4'];
  }

  /** The extension of the URL's basename, or ".mp4": one dot, leading. */
  function UrlExtension(pathname: string): (ext: string)
    ensures ext != "" && ext[0] == '.' && '.' !in ext[1..]
  {
    var fromUrl := PathPosix.Extname(OriginalBase(pathname));
    FallbackExtensionShape();
    if fromUrl != "" then fromUrl else FALLBACK_EXTENSION
  }

  /**
   * The `finalName` of the attachment. As written, the extension test on the sanitised
   * base can never succeed, so the name is the sanitised base followed by the extension
   * of the URL's basename, or ".mp4".
   */
  function AttachmentName(filename: Option<string>, pathname: string): (r: string)
    ensures r == SafeBase(filename, pathname) + UrlExtension(pathname)
  {
    var originalBase := OriginalBase(pathname);
    var safeBase := SafeBase(filename, pathname);
    var extension := Or(Or(PathPosix.Extname(safeBase), PathPosix.Extname(originalBase)), FALLBACK_EXTENSION);
    NoDotNoExtension(safeBase);
    ReplaceEmptyPattern(safeBase);
    assert extension == UrlExtension(pathname);
    ReplaceFirst(safeBase, PathPosix.Extname(safeBase), "") + extension
  }

  /** A non-empty string of word characters only. */
  predicate IsWord(s: string)
  {
    s != [] && forall i :: 0 <= i < |s| ==> IsWordChar(s[i])
  }

  /** A prefix with no class character passes through a replacement untouched. */
  lemma {:induction false} ReplaceRunsKeepsPrefix(a: string, t: string, p: char -> bool)
    requires forall i :: 0 <= i < |a| ==> !p(a[i])
    ensures ReplaceRuns(a + t, p) == a + ReplaceRuns(t, p)
  {
    if a == [] {
      assert a + t == t;
    } else {
      var s := a + t;
      var tail := a[1..];
      assert s[0] == a[0] && !p(s[0]);
      assert s[1..] == tail + t;
      assert forall i :: 0 <= i < |tail| ==> tail[i] == a[i + 1];
      ReplaceRunsKeepsPrefix(tail, t, p);
      var rest := ReplaceRuns(t, p);
      assert ReplaceRuns(s, p) == [a[0]] + (tail + rest);
      ConsAppend(a[0], tail, rest);
      assert [a[0]] + tail == a;
    }
  }

  /** Regrouping a concatenation that starts with one character. */
  lemma ConsAppend(c: char, x: string, y: string)
    ensures [c] + (x + y) == ([c] + x) + y
  {
  }

  /** A word holds neither a slash nor a dot, and no character of the disallowed class. */
  lemma {:induction false} WordIsPlain(s: string)
    requires IsWord(s)
    ensures '/' !in s && '.' !in s
    ensures forall i :: 0 <= i < |s| ==> !IsDisallowed(s[i])
  {
    assert forall i :: 0 <= i < |s| ==> IsWordChar(s[i]);
  }

  /** A dot followed by a word becomes a hyphen followed by the word. */
  lemma {:induction false} DotThenWord(b: string)
    requires IsWord(b)
    ensures ReplaceRuns(['.'] + b, IsDisallowed) == ['-'] + b
  {
    WordIsPlain(b);
    var s := ['.'] + b;
    assert s[0] == '.' && IsDisallowed(s[0]);
    assert s[1..] == b;
    assert SkipRun(b, IsDisallowed) == b;
    ReplaceRunsIdentity(b, IsDisallowed);
  }

  /** With no disallowed character in `a` or `b`, the dot between them becomes a hyphen. */
  lemma {:induction false} DisallowedDotted(a: string, b: string)
    requires IsWord(a) && IsWord(b)
    ensures ReplaceRuns(a + "." + b, IsDisallowed) == a + "-" + b
  {
    WordIsPlain(a);
    var t := ['.'] + b;
    assert a + "." + b == a + t;
    ReplaceRunsKeepsPrefix(a, t, IsDisallowed);
    DotThenWord(b);
    assert a + (['-'] + b) == a + "-" + b;
  }

  /** The dot of a dotted name is sanitised into a hyphen: "video.mp4" becomes "video-mp4". */
  lemma {:induction false} SanitizeDotted(a: string, b: string)
    requires IsWord(a) && IsWord(b)
    ensures Sanitize(a + "." + b) == a + "-" + b
  {
    var hyphened := a + "-" + b;
    DisallowedDotted(a, b);
    assert forall i :: 0 <= i < |hyphened| ==> hyphened[i] == '-' || IsWordChar(hyphened[i]);
    assert forall i :: 0 <= i < |hyphened| && hyphened[i] == '-' ==> i == |a|;
    ReplaceRunsIdentity(hyphened, IsHyphen);
  }

  /** A name without a slash is its own basename. */
  lemma {:induction false} BasenameOfPlainName(name: string)
    requires name != "" && '/' !in name
    ensures PathPosix.Basename(name) == name
  {
    assert name[|name| - 1] != '/';
    assert PathPosix.TrimTrailingSlashes(name) == name;
    var r := PathPosix.Basename(name);
    assert |r| == |name|;
  }

  /** The basename of a file directly under the root is the file's name. */
  lemma {:induction false} BasenameUnderRoot(name: string)
    requires name != "" && '/' !in name
    ensures PathPosix.Basename("/" + name) == name
  {
    var path := "/" + name;
    assert path[|path| - 1] == name[|name| - 1];
    assert PathPosix.TrimTrailingSlashes(path) == path;
    var r := PathPosix.Basename(path);
    assert r == path[1..];
  }

  /** The last dot of a dotted name is the one before its last part. */
  lemma {:induction false} LastDotOfDotted(a: string, b: string)
    requires '.' !in b
    ensures PathPosix.LastDot(a + "." + b) == Some(|a|)
  {
    var name := a + ("." + b);
    assert name == a + "." + b;
    assert name[|a|] == '.';
    assert name[|a| + 1..] == b;
    assert '.' in name;
  }

  /** The extension of a dotted word name is its last part. */
  lemma {:induction false} ExtnameDotted(a: string, b: string)
    requires IsWord(a) && IsWord(b)
    ensures PathPosix.Extname(a + "." + b) == "." + b
  {
    WordIsPlain(a);
    WordIsPlain(b);
    var name := a + "." + b;
    assert '/' !in name;
    BasenameOfPlainName(name);
    LastDotOfDotted(a, b);
    assert |name| > 2;
    assert PathPosix.SegmentExtension(name) == name[|a|..];
    assert name[|a|..] == "." + b;
  }

  /**
   * As written, a dotted requested name loses its extension to a hyphen and takes the URL's
   * instead: "clip.mov" requested for "/x/video" gives "clip-mov.mp4".
   */
  lemma {:induction false} RequestedDottedName(a: string, b: string, pathname: string)
    requires IsWord(a) && IsWord(b)
    ensures AttachmentName(Some(a + "." + b), pathname) == a + "-" + b + UrlExtension(pathname)
  {
    SanitizeDotted(a, b);
    assert SafeBase(Some(a + "." + b), pathname) == a + "-" + b;
  }

  /** The name and extension taken from a dotted file name directly under the root. */
  lemma {:induction false} UrlDottedParts(a: string, b: string)
    requires IsWord(a) && IsWord(b)
    ensures OriginalBase("/" + (a + "." + b)) == a + "." + b
    ensures UrlExtension("/" + (a + "." + b)) == "." + b
  {
    WordIsPlain(a);
    WordIsPlain(b);
    var name := a + "." + b;
    assert '/' !in name;
    BasenameUnderRoot(name);
    ExtnameDotted(a, b);
  }

  /** As written, a dotted URL file name is doubled: "/video.mp4" gives "video-mp4.mp4". */
  lemma {:induction false} UrlDottedName(a: string, b: string)
    requires IsWord(a) && IsWord(b)
    ensures AttachmentName(None, "/" + a + "." + b) == (a + "-" + b) + ("." + b)
  {
    var path := "/" + (a + "." + b);
    assert "/" + a + "." + b == path;
    UrlDottedParts(a, b);
    SanitizeDotted(a, b);
    assert SafeBase(None, path) == a + "-" + b;
  }
}
