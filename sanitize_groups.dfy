/**
 * Where the sanitiser puts its hyphens. A run replacement splits wherever no run crosses,
 * and a maximal run becomes exactly one hyphen in its place. From that: the first two
 * replacements together turn each maximal run of characters other than letters, digits and
 * '_' into one hyphen, and the whole sanitiser joins the name's word groups (its maximal
 * runs of letters, digits and '_') with single hyphens.
 */
module SanitizeGroups {
  import opened Filename

  /** Anything but a letter, a digit or '_': a disallowed character or a hyphen. */
  predicate IsNonWord(c: char)
  {
    !IsWordChar(c)
  }

  /** Skipping a run of class characters stops before `b` when the run ends inside `a` or `b` starts outside the class. */
  lemma {:induction false} SkipRunAppend(a: string, b: string, p: char -> bool)
    requires SkipRun(a, p) != [] || b == [] || !p(b[0])
    ensures SkipRun(a + b, p) == SkipRun(a, p) + b
  {
    if a == [] {
      assert a + b == b;
    } else {
      TailOfAppend(a, b);
      if p(a[0]) {
        SkipRunAppend(a[1..], b, p);
      }
    }
  }

  /** When no run of class characters crosses the boundary between `a` and `b`, the replacement splits there. */
  lemma {:induction false} ReplaceRunsAppend(a: string, b: string, p: char -> bool)
    requires a == [] || b == [] || !p(a[|a| - 1]) || !p(b[0])
    ensures ReplaceRuns(a + b, p) == ReplaceRuns(a, p) + ReplaceRuns(b, p)
    decreases |a|
  {
    if a == [] {
      assert a + b == b;
    } else if b == [] {
      assert a + b == a;
    } else if !p(a[0]) {
      ReplaceRunsAppend(a[1..], b, p);
      AppendPlainHead(a, b, p);
    } else {
      var rest := SkipRun(a[1..], p);
      if rest == [] {
        AppendWholeRun(a, b, p);
      } else {
        assert rest[|rest| - 1] == a[|a| - 1];
        ReplaceRunsAppend(rest, b, p);
        AppendRunHead(a, b, p);
      }
    }
  }

  /** A leading character outside the class passes through on both sides of the split. */
  lemma {:induction false} AppendPlainHead(a: string, b: string, p: char -> bool)
    requires a != [] && !p(a[0])
    requires ReplaceRuns(a[1..] + b, p) == ReplaceRuns(a[1..], p) + ReplaceRuns(b, p)
    ensures ReplaceRuns(a + b, p) == ReplaceRuns(a, p) + ReplaceRuns(b, p)
  {
    var s := a + b;
    TailOfAppend(a, b);
    ConsAppend(a[0], ReplaceRuns(a[1..], p), ReplaceRuns(b, p));
  }

  /** A leading run that ends inside `a` becomes one hyphen on both sides of the split. */
  lemma {:induction false} AppendRunHead(a: string, b: string, p: char -> bool)
    requires a != [] && p(a[0]) && SkipRun(a[1..], p) != []
    requires var rest := SkipRun(a[1..], p);
      ReplaceRuns(rest + b, p) == ReplaceRuns(rest, p) + ReplaceRuns(b, p)
    ensures ReplaceRuns(a + b, p) == ReplaceRuns(a, p) + ReplaceRuns(b, p)
  {
    var s := a + b;
    var rest := SkipRun(a[1..], p);
    TailOfAppend(a, b);
    SkipRunAppend(a[1..], b, p);
    Regroup3("-", ReplaceRuns(rest, p), ReplaceRuns(b, p));
  }

  /** When all of `a` is one run and `b` starts outside the class, `a` becomes one hyphen in front of `b`'s replacement. */
  lemma {:induction false} AppendWholeRun(a: string, b: string, p: char -> bool)
    requires a != [] && b != [] && p(a[0]) && SkipRun(a[1..], p) == []
    requires !p(a[|a| - 1]) || !p(b[0])
    ensures ReplaceRuns(a + b, p) == ReplaceRuns(a, p) + ReplaceRuns(b, p)
  {
    WholeRun(a, p);
    TailOfAppend(a, b);
    SkipRunAppend(a[1..], b, p);
  }

  /** A string that is one run of class characters ends in one and becomes a single hyphen. */
  lemma {:induction false} WholeRun(a: string, p: char -> bool)
    requires a != [] && p(a[0]) && SkipRun(a[1..], p) == []
    ensures p(a[|a| - 1]) && ReplaceRuns(a, p) == "-"
  {
    if |a| > 1 {
      assert a[|a| - 1] == a[1..][|a| - 2];
    }
  }

  /** A non-empty string of class characters becomes a single hyphen. */
  lemma {:induction false} RunIsOneHyphen(run: string, p: char -> bool)
    requires run != [] && forall i :: 0 <= i < |run| ==> p(run[i])
    ensures ReplaceRuns(run, p) == "-"
  {
    assert SkipRun(run[1..], p) == [];
  }

  /** A maximal non-empty run of class characters between `a` and `b` becomes exactly one hyphen between their replacements. */
  lemma {:induction false} ReplaceRunsOneRun(a: string, run: string, b: string, p: char -> bool)
    requires run != [] && forall i :: 0 <= i < |run| ==> p(run[i])
    requires a == [] || !p(a[|a| - 1])
    requires b == [] || !p(b[0])
    ensures ReplaceRuns(a + run + b, p) == ReplaceRuns(a, p) + "-" + ReplaceRuns(b, p)
  {
    Regroup3(a, run, b);
    ReplaceRunsAppend(a, run + b, p);
    ReplaceRunsAppend(run, b, p);
    RunIsOneHyphen(run, p);
    Regroup3(ReplaceRuns(a, p), "-", ReplaceRuns(b, p));
  }

  /** The first replacement turns a non-empty string of non-word characters into a non-empty string of hyphens. */
  lemma {:induction false} NonWordBecomesHyphens(n: string)
    requires n != [] && forall i :: 0 <= i < |n| ==> IsNonWord(n[i])
    ensures var h := ReplaceRuns(n, IsDisallowed); h != [] && forall i :: 0 <= i < |h| ==> h[i] == '-'
  {
    assert forall c :: c in n ==> IsNonWord(c);
  }

  /** The first two replacements together turn each maximal run of non-word characters into one hyphen. */
  lemma {:induction false} TwoPassesCollapseNonWord(s: string)
    ensures ReplaceRuns(ReplaceRuns(s, IsDisallowed), IsHyphen) == ReplaceRuns(s, IsNonWord)
    decreases |s|
  {
    if s != [] {
      if IsWordChar(s[0]) {
        TwoPassesCollapseNonWord(s[1..]);
        TwoPassesWordHead(s);
      } else {
        var u := SkipRun(s[1..], IsNonWord);
        TwoPassesCollapseNonWord(u);
        TwoPassesNonWordHead(s, u);
      }
    }
  }

  /** A leading word character passes through both replacements. */
  lemma {:induction false} TwoPassesWordHead(s: string)
    requires s != [] && IsWordChar(s[0])
    requires ReplaceRuns(ReplaceRuns(s[1..], IsDisallowed), IsHyphen) == ReplaceRuns(s[1..], IsNonWord)
    ensures ReplaceRuns(ReplaceRuns(s, IsDisallowed), IsHyphen) == ReplaceRuns(s, IsNonWord)
  {
    var x := ReplaceRuns(s[1..], IsDisallowed);
    assert ReplaceRuns(s, IsDisallowed) == [s[0]] + x;
    ReplaceRunsAppend([s[0]], x, IsHyphen);
    assert ReplaceRuns([s[0]], IsHyphen) == [s[0]] by {
      assert [s[0]][1..] == [];
    }
    assert ReplaceRuns(s, IsNonWord) == [s[0]] + ReplaceRuns(s[1..], IsNonWord);
  }

  /** A name that starts outside a word is its leading run of non-word characters, then the rest. */
  lemma {:induction false} NonWordRunSplit(s: string, u: string)
    requires s != [] && !IsWordChar(s[0]) && u == SkipRun(s[1..], IsNonWord)
    ensures var n := s[..|s| - |u|];
      s == n + u && n != [] && forall i :: 0 <= i < |n| ==> IsNonWord(n[i])
  {
    SkipRunIsSuffix(s, u);
    SplitAt(s, |s| - |u|);
    SkippedAreNonWord(s, u);
  }

  /** What is left after the leading run is a proper suffix of the name. */
  lemma {:induction false} SkipRunIsSuffix(s: string, u: string)
    requires s != [] && u == SkipRun(s[1..], IsNonWord)
    ensures |u| < |s| && u == s[|s| - |u|..]
  {
    var t := s[1..];
    assert u == t[|t| - |u|..];
    DropOfTail(s, |s| - |u|);
  }

  /** Every character before what is left is outside a word. */
  lemma {:induction false} SkippedAreNonWord(s: string, u: string)
    requires s != [] && !IsWordChar(s[0]) && u == SkipRun(s[1..], IsNonWord)
    ensures forall i :: 0 <= i < |s| - |u| ==> IsNonWord(s[i])
    decreases |s|
  {
    var t := s[1..];
    if t != [] && IsNonWord(t[0]) {
      assert u == SkipRun(t[1..], IsNonWord);
      SkippedAreNonWord(t, u);
    }
  }

  /** The first replacement leaves a leading word character in place. */
  lemma {:induction false} DisallowedPassHead(u: string)
    requires u == [] || IsWordChar(u[0])
    ensures var v := ReplaceRuns(u, IsDisallowed); v == [] || !IsHyphen(v[0])
  {
    if u != [] {
      assert ReplaceRuns(u, IsDisallowed) == [u[0]] + ReplaceRuns(u[1..], IsDisallowed);
    }
  }

  /** A leading run of non-word characters leaves the first replacement as hyphens and the second as one hyphen. */
  lemma {:induction false} TwoPassesNonWordHead(s: string, u: string)
    requires s != [] && !IsWordChar(s[0]) && u == SkipRun(s[1..], IsNonWord)
    requires ReplaceRuns(ReplaceRuns(u, IsDisallowed), IsHyphen) == ReplaceRuns(u, IsNonWord)
    ensures ReplaceRuns(ReplaceRuns(s, IsDisallowed), IsHyphen) == ReplaceRuns(s, IsNonWord)
  {
    NonWordRunSplit(s, u);
    var n := s[..|s| - |u|];
    ReplaceRunsAppend(n, u, IsDisallowed);
    var h := ReplaceRuns(n, IsDisallowed);
    NonWordBecomesHyphens(n);
    var v := ReplaceRuns(u, IsDisallowed);
    DisallowedPassHead(u);
    ReplaceRunsAppend(h, v, IsHyphen);
    RunIsOneHyphen(h, IsHyphen);
    assert ReplaceRuns(s, IsNonWord) == "-" + ReplaceRuns(u, IsNonWord);
  }

  /** The leading run of word characters of `s`. */
  function WordPrefix(s: string): (w: string)
    ensures |w| <= |s| && w == s[..|w|]
    ensures forall i :: 0 <= i < |w| ==> IsWordChar(w[i])
    ensures |w| < |s| ==> !IsWordChar(s[|w|])
    ensures s != [] && IsWordChar(s[0]) ==> w != []
  {
    if s != [] && IsWordChar(s[0]) then [s[0]] + WordPrefix(s[1..]) else []
  }

  /** The word groups of `s`: its maximal non-empty runs of letters, digits and '_', in order. */
  function Groups(s: string): (gs: seq<string>)
    ensures forall i :: 0 <= i < |gs| ==> IsWord(gs[i])
    decreases |s|
  {
    if s == [] then []
    else if !IsWordChar(s[0]) then Groups(s[1..])
    else
      var w := WordPrefix(s);
      [w] + Groups(s[|w|..])
  }

  /** `gs.join("-")`. */
  function JoinHyphen(gs: seq<string>): string
  {
    if gs == [] then "" else if |gs| == 1 then gs[0] else gs[0] + "-" + JoinHyphen(gs[1..])
  }

  /** Joining words starts and ends with a word character. */
  lemma {:induction false} JoinWordsEdges(gs: seq<string>)
    requires gs != [] && forall i :: 0 <= i < |gs| ==> IsWord(gs[i])
    ensures var j := JoinHyphen(gs); j != [] && IsWordChar(j[0]) && IsWordChar(j[|j| - 1])
  {
    if |gs| > 1 {
      JoinWordsEdges(gs[1..]);
      var rest := JoinHyphen(gs[1..]);
      assert JoinHyphen(gs) == gs[0] + "-" + rest;
    }
  }

  /** Leading non-word characters add no group. */
  lemma {:induction false} GroupsSkipNonWord(s: string)
    ensures Groups(SkipRun(s, IsNonWord)) == Groups(s)
  {
    if s != [] && IsNonWord(s[0]) {
      GroupsSkipNonWord(s[1..]);
    }
  }

  /** `s` with a trailing hyphen when it ends in a non-word character. */
  function TrailingMark(s: string): string
  {
    if s != [] && IsNonWord(s[|s| - 1]) then "-" else ""
  }

  /** From a word character on, the collapsed string is the joined groups, then one hyphen if `s` ends outside a word. */
  lemma {:induction false} CollapsedFromWord(s: string)
    requires s != [] && IsWordChar(s[0])
    ensures Groups(s) != []
    ensures ReplaceRuns(s, IsNonWord) == JoinHyphen(Groups(s)) + TrailingMark(s)
    decreases |s|
  {
    var w := WordPrefix(s);
    var rest := s[|w|..];
    WordHeadSplit(s);
    if rest == [] {
      CollapsedWordOnly(s, w);
    } else {
      var u := SkipRun(rest[1..], IsNonWord);
      NonWordHead(rest);
      if u == [] {
        CollapsedWordThenRun(s, w, rest);
      } else {
        CollapsedFromWord(u);
        CollapsedWordRunMore(s, w, rest, u);
      }
    }
  }

  /** A name that starts with a word character is its leading word, then the rest, and the word passes through. */
  lemma {:induction false} WordHeadSplit(s: string)
    requires s != [] && IsWordChar(s[0])
    ensures var w := WordPrefix(s); var rest := s[|w|..];
      && s == w + rest && IsWord(w)
      && (rest != [] ==> IsNonWord(rest[0]))
      && ReplaceRuns(s, IsNonWord) == w + ReplaceRuns(rest, IsNonWord)
      && Groups(s) == [w] + Groups(rest)
  {
    var w := WordPrefix(s);
    var rest := s[|w|..];
    assert s == w + rest;
    ReplaceRunsKeepsPrefix(w, rest, IsNonWord);
  }

  lemma {:induction false} CollapsedWordOnly(s: string, w: string)
    requires s != [] && w == s && IsWord(w)
    requires ReplaceRuns(s, IsNonWord) == w + ReplaceRuns([], IsNonWord)
    requires Groups(s) == [w] + Groups([])
    ensures ReplaceRuns(s, IsNonWord) == JoinHyphen(Groups(s)) + TrailingMark(s)
  {
    assert Groups(s) == [w];
    assert TrailingMark(s) == "";
    assert w + [] == w;
  }

  lemma {:induction false} CollapsedWordThenRun(s: string, w: string, rest: string)
    requires s == w + rest && IsWord(w) && rest != []
    requires SkipRun(rest[1..], IsNonWord) == [] && IsNonWord(rest[0])
    requires ReplaceRuns(s, IsNonWord) == w + ReplaceRuns(rest, IsNonWord)
    requires ReplaceRuns(rest, IsNonWord) == "-" + ReplaceRuns([], IsNonWord)
    requires Groups(s) == [w] + Groups(rest) && Groups(rest) == Groups([])
    ensures ReplaceRuns(s, IsNonWord) == JoinHyphen(Groups(s)) + TrailingMark(s)
  {
    assert Groups(s) == [w];
    assert IsNonWord(rest[|rest| - 1]) by {
      if |rest| > 1 {
        assert rest[|rest| - 1] == rest[1..][|rest| - 2];
      }
    }
    assert s[|s| - 1] == rest[|rest| - 1];
    assert TrailingMark(s) == "-";
  }

  lemma {:induction false} CollapsedWordRunMore(s: string, w: string, rest: string, u: string)
    requires s == w + rest && IsWord(w) && rest != [] && u != []
    requires |u| <= |rest| && u == rest[|rest| - |u|..]
    requires ReplaceRuns(s, IsNonWord) == w + ReplaceRuns(rest, IsNonWord)
    requires ReplaceRuns(rest, IsNonWord) == "-" + ReplaceRuns(u, IsNonWord)
    requires Groups(s) == [w] + Groups(rest) && Groups(rest) == Groups(u)
    requires Groups(u) != []
    requires ReplaceRuns(u, IsNonWord) == JoinHyphen(Groups(u)) + TrailingMark(u)
    ensures ReplaceRuns(s, IsNonWord) == JoinHyphen(Groups(s)) + TrailingMark(s)
  {
    JoinAfterWord(w, Groups(u));
    TrailingMarkOfSuffix(s, u);
    Regroup(w, "-", JoinHyphen(Groups(u)), TrailingMark(u));
  }

  /** Joining a word in front of non-empty groups puts one hyphen after it. */
  lemma {:induction false} JoinAfterWord(w: string, gs: seq<string>)
    requires gs != []
    ensures JoinHyphen([w] + gs) == w + "-" + JoinHyphen(gs)
  {
    assert ([w] + gs)[1..] == gs;
  }

  /** The trailing mark depends only on the last character. */
  lemma {:induction false} TrailingMarkOfSuffix(s: string, u: string)
    requires u != [] && |u| <= |s| && u == s[|s| - |u|..]
    ensures TrailingMark(s) == TrailingMark(u)
  {
    assert s[|s| - 1] == u[|u| - 1];
  }

  /** The head and the tail of a concatenation whose first part is not empty. */
  lemma TailOfAppend(a: string, b: string)
    requires a != []
    ensures (a + b)[0] == a[0] && (a + b)[1..] == a[1..] + b
  {
  }

  /** Dropping from the tail is dropping one more from the whole. */
  lemma DropOfTail(s: string, k: nat)
    requires 1 <= k <= |s|
    ensures s[1..][k - 1..] == s[k..]
  {
  }

  /** A string is its prefix up to `k`, then the rest. */
  lemma SplitAt(s: string, k: nat)
    requires k <= |s|
    ensures s == s[..k] + s[k..]
  {
  }

  /** Regrouping a concatenation of three strings. */
  lemma Regroup3(a: string, b: string, c: string)
    ensures a + (b + c) == a + b + c
  {
  }

  /** Regrouping a concatenation of four strings. */
  lemma Regroup(a: string, b: string, c: string, d: string)
    ensures a + (b + (c + d)) == a + b + c + d
  {
  }

  /** The third replacement takes one hyphen off each edge of a core that has none at its edges. */
  lemma {:induction false} TrimAround(lead: string, core: string, trail: string)
    requires lead == "" || lead == "-"
    requires trail == "" || trail == "-"
    requires core != [] && core[0] != '-' && core[|core| - 1] != '-'
    ensures TrimHyphens(lead + core + trail) == core
  {
    var s := lead + core + trail;
    PartsOfThree(lead, core, trail);
    var r := TrimHyphens(s);
    assert |r| == |core|;
  }

  /** The first and last characters of a concatenation of three strings, and its middle part. */
  lemma PartsOfThree(a: string, b: string, c: string)
    requires b != []
    ensures var s := a + b + c;
      && |s| == |a| + |b| + |c|
      && s[0] == (if a == [] then b[0] else a[0])
      && s[|s| - 1] == (if c == [] then b[|b| - 1] else c[|c| - 1])
      && s[|a|..|a| + |b|] == b
  {
  }

  /** The collapsed string of a name that starts with a word character loses only its trailing mark. */
  lemma {:induction false} TrimCollapsedFromWord(s: string)
    requires s != [] && IsWordChar(s[0])
    ensures TrimHyphens(ReplaceRuns(s, IsNonWord)) == JoinHyphen(Groups(s))
  {
    CollapsedFromWord(s);
    var core := JoinHyphen(Groups(s));
    JoinWordsEdges(Groups(s));
    TrimAround("", core, TrailingMark(s));
    assert "" + core + TrailingMark(s) == core + TrailingMark(s);
  }

  /** A leading run of non-word characters collapses to one hyphen and adds no group. */
  lemma {:induction false} NonWordHead(s: string)
    requires s != [] && IsNonWord(s[0])
    ensures var u := SkipRun(s[1..], IsNonWord);
      && |u| < |s| && u == s[|s| - |u|..]
      && ReplaceRuns(s, IsNonWord) == "-" + ReplaceRuns(u, IsNonWord) && Groups(s) == Groups(u)
  {
    GroupsSkipNonWord(s[1..]);
  }

  /** A hyphen before the collapsed string of a name that starts with a word character is trimmed with its trailing mark. */
  lemma {:induction false} TrimAfterHyphen(u: string)
    requires u != [] && IsWordChar(u[0])
    ensures TrimHyphens("-" + ReplaceRuns(u, IsNonWord)) == JoinHyphen(Groups(u))
  {
    CollapsedFromWord(u);
    var core := JoinHyphen(Groups(u));
    JoinWordsEdges(Groups(u));
    TrimAround("-", core, TrailingMark(u));
    Regroup3("-", core, TrailingMark(u));
  }

  /** The collapsed string of a name that starts outside a word loses its leading hyphen and its trailing mark. */
  lemma {:induction false} TrimCollapsedFromNonWord(s: string)
    requires s != [] && IsNonWord(s[0])
    ensures TrimHyphens(ReplaceRuns(s, IsNonWord)) == JoinHyphen(Groups(s))
  {
    var u := SkipRun(s[1..], IsNonWord);
    NonWordHead(s);
    if u == [] {
      assert TrimHyphens("-") == "";
    } else {
      TrimAfterHyphen(u);
    }
  }

  /**
   * The sanitiser joins the name's word groups with single hyphens: every maximal run of other
   * characters between two groups becomes one hyphen, and such runs at the edges vanish.
   */
  lemma {:induction false} SanitizeJoinsGroups(name: string)
    ensures Sanitize(name) == JoinHyphen(Groups(name))
  {
    TwoPassesCollapseNonWord(name);
    assert Sanitize(name) == TrimHyphens(ReplaceRuns(name, IsNonWord));
    if name == [] {
    } else if IsWordChar(name[0]) {
      TrimCollapsedFromWord(name);
    } else {
      TrimCollapsedFromNonWord(name);
    }
  }
}
