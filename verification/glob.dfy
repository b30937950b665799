/** `testGlob`: whether a host name is accepted by a `Host` pattern list.
    The list is split on runs of commas and whitespace, negated patterns
    (leading `!`) are tried before all others, and each glob is matched
    against the whole name with `*` as any run and `?` as at most one character. */
module Glob {
  import opened Text

  /** The splitter `[,\s]+`, with the .NET meaning of `\s`. */
  predicate IsSplitChar(c: char) {
    c == ',' || IsDotNetSpace(c)
  }

  predicate IsFieldChar(c: char) {
    !IsSplitChar(c)
  }

  /** `Regex.Split` on `[,\s]+`: the text between maximal separator runs.
      A leading or trailing run yields an empty first or last field. */
  function Split(s: string): (r: seq<string>)
    ensures |r| >= 1
    ensures forall i :: 0 <= i < |r| ==> forall k :: 0 <= k < |r[i]| ==> IsFieldChar(r[i][k])
    ensures forall i :: 0 < i < |r| - 1 ==> |r[i]| > 0
    decreases |s|
  {
    var i := RunEnd(s, 0, IsFieldChar);
    if i == |s| then
      [s]
    else
      var j := RunEnd(s, i, IsSplitChar);
      var rest := Split(s[j..]);
      assert j < |s| ==> |rest[0]| > 0 by {
        if j < |s| {
          assert IsFieldChar(s[j..][0]);
        }
      }
      [s[..i]] + rest
  }

  /** The fields joined again with the separator runs in between. */
  function Interleave(fields: seq<string>, gaps: seq<string>): string
    requires |fields| == |gaps| + 1
  {
    if |gaps| == 0 then fields[0] else fields[0] + gaps[0] + Interleave(fields[1..], gaps[1..])
  }

  /** Splitting loses nothing but the separators: there are non-empty
      separator runs that, put back between the fields, give the text again. */
  predicate IsGap(g: string) {
    |g| > 0 && forall k :: 0 <= k < |g| ==> IsSplitChar(g[k])
  }

  lemma {:induction false} SplitRejoins(s: string) returns (gaps: seq<string>)
    ensures |gaps| == |Split(s)| - 1
    ensures forall i :: 0 <= i < |gaps| ==> IsGap(gaps[i])
    ensures Interleave(Split(s), gaps) == s
    decreases |s|
  {
    var i := RunEnd(s, 0, IsFieldChar);
    if i == |s| {
      gaps := [];
    } else {
      var j := RunEnd(s, i, IsSplitChar);
      var more := SplitRejoins(s[j..]);
      SplitStep(s, i, j);
      gaps := [s[i..j]] + more;
      Rejoin(s, i, j, Split(s[j..]), more);
    }
  }

  lemma SplitStep(s: string, i: nat, j: nat)
    requires i == RunEnd(s, 0, IsFieldChar) && i < |s|
    requires j == RunEnd(s, i, IsSplitChar)
    ensures Split(s) == [s[..i]] + Split(s[j..])
    ensures IsGap(s[i..j])
  {
    assert IsSplitChar(s[i]);
  }

  lemma Rejoin(s: string, i: nat, j: nat, fields: seq<string>, gaps: seq<string>)
    requires i <= j <= |s| && |fields| == |gaps| + 1
    requires Interleave(fields, gaps) == s[j..]
    ensures Interleave([s[..i]] + fields, [s[i..j]] + gaps) == s
  {
    assert ([s[..i]] + fields)[1..] == fields && ([s[i..j]] + gaps)[1..] == gaps;
    assert s[i..j] + s[j..] == s[i..];
    assert s[..i] + s[i..] == s;
  }

  /** `.` of the generated regex: any character but a line feed. */
  predicate IsRegexAny(c: char) {
    c != '\n'
  }

  /** The glob matched against the whole of `s`: `*` is `.*`, `?` is `.?`,
      and every other character (`.` included, which the source escapes) is literal. */
  predicate GlobMatch(p: string, s: string)
    decreases |p| + |s|
  {
    if |p| == 0 then |s| == 0
    else if p[0] == '*' then
      GlobMatch(p[1..], s) || (|s| > 0 && IsRegexAny(s[0]) && GlobMatch(p, s[1..]))
    else if p[0] == '?' then
      GlobMatch(p[1..], s) || (|s| > 0 && IsRegexAny(s[0]) && GlobMatch(p[1..], s[1..]))
    else
      |s| > 0 && s[0] == p[0] && GlobMatch(p[1..], s[1..])
  }

  /** `^(?:…)$` with .NET's `$`, which also matches before one final line feed. */
  predicate IsMatch(p: string, s: string) {
    || GlobMatch(p, s)
    || (|s| > 0 && s[|s| - 1] == '\n' && GlobMatch(p, s[..|s| - 1]))
  }

  predicate IsWildcard(c: char) {
    c == '*' || c == '?'
  }

  /** A glob without wildcards matches exactly itself. */
  lemma {:induction false} LiteralGlob(p: string, s: string)
    requires forall k :: 0 <= k < |p| ==> !IsWildcard(p[k])
    ensures GlobMatch(p, s) <==> p == s
  {
    if |p| > 0 && |s| > 0 {
      LiteralGlob(p[1..], s[1..]);
      if p == s {
        assert p[1..] == s[1..];
      }
      if GlobMatch(p, s) {
        assert p == [p[0]] + p[1..] && s == [s[0]] + s[1..];
      }
    }
  }

  /** `*` alone matches exactly the names without a line feed. */
  lemma {:induction false} StarGlob(s: string)
    ensures GlobMatch("*", s) <==> forall k :: 0 <= k < |s| ==> IsRegexAny(s[k])
  {
    assert "*"[1..] == "";
    if |s| > 0 {
      StarGlob(s[1..]);
      assert forall k :: 1 <= k < |s| ==> s[1..][k - 1] == s[k];
    }
  }

  /** `?` alone is `.?`: it matches the empty name and any one character but a line feed. */
  lemma QuestionGlob(s: string)
    ensures GlobMatch("?", s) <==> |s| == 0 || (|s| == 1 && IsRegexAny(s[0]))
  {
    assert "?"[1..] == "";
    if |s| > 0 {
      assert GlobMatch("", s[1..]) <==> |s| == 1;
    }
  }

  /** A glob without a line feed never matches a name holding one. */
  lemma {:induction false} MatchHasNoLineFeed(p: string, s: string)
    requires forall k :: 0 <= k < |p| ==> p[k] != '\n'
    requires GlobMatch(p, s)
    ensures forall k :: 0 <= k < |s| ==> s[k] != '\n'
    decreases |p| + |s|
  {
    if |p| > 0 {
      if p[0] == '*' && !GlobMatch(p[1..], s) {
        MatchHasNoLineFeed(p, s[1..]);
        assert forall k :: 1 <= k < |s| ==> s[k] == s[1..][k - 1];
      } else if p[0] == '?' && GlobMatch(p[1..], s) {
        MatchHasNoLineFeed(p[1..], s);
      } else if p[0] == '*' {
        MatchHasNoLineFeed(p[1..], s);
      } else {
        MatchHasNoLineFeed(p[1..], s[1..]);
        assert forall k :: 1 <= k < |s| ==> s[k] == s[1..][k - 1];
      }
    }
  }

  /** The anchored match of a pattern without a line feed on a name without
      one: the name is accepted exactly when the glob matches all of it, and
      the name followed by one line feed is accepted just the same. */
  lemma FinalLineFeed(p: string, t: string)
    requires forall k :: 0 <= k < |p| ==> p[k] != '\n'
    requires forall k :: 0 <= k < |t| ==> t[k] != '\n'
    ensures IsMatch(p, t) <==> GlobMatch(p, t)
    ensures IsMatch(p, t + "\n") <==> GlobMatch(p, t)
  {
    var s := t + "\n";
    assert s[..|s| - 1] == t;
    if GlobMatch(p, s) {
      MatchHasNoLineFeed(p, s);
    }
  }

  /** Globs compose: matching pieces concatenate into a match of the whole. */
  lemma {:induction false} GlobConcat(p1: string, s1: string, p2: string, s2: string)
    requires GlobMatch(p1, s1) && GlobMatch(p2, s2)
    ensures GlobMatch(p1 + p2, s1 + s2)
    decreases |p1| + |s1|
  {
    if |p1| == 0 {
      assert p1 + p2 == p2 && s1 + s2 == s2;
    } else {
      assert (p1 + p2)[0] == p1[0] && (p1 + p2)[1..] == p1[1..] + p2;
      if p1[0] == '*' {
        if GlobMatch(p1[1..], s1) {
          GlobConcat(p1[1..], s1, p2, s2);
        } else {
          GlobConcat(p1, s1[1..], p2, s2);
          assert (s1 + s2)[0] == s1[0] && (s1 + s2)[1..] == s1[1..] + s2;
        }
      } else if p1[0] == '?' {
        if GlobMatch(p1[1..], s1) {
          GlobConcat(p1[1..], s1, p2, s2);
        } else {
          GlobConcat(p1[1..], s1[1..], p2, s2);
          assert (s1 + s2)[0] == s1[0] && (s1 + s2)[1..] == s1[1..] + s2;
        }
      } else {
        GlobConcat(p1[1..], s1[1..], p2, s2);
        assert (s1 + s2)[0] == s1[0] && (s1 + s2)[1..] == s1[1..] + s2;
      }
    }
  }

  /** Globs decompose: a match of a concatenated pattern splits the name into
      a match of the first piece followed by a match of the second. */
  lemma {:induction false} GlobSplit(p1: string, p2: string, s: string)
    requires GlobMatch(p1 + p2, s)
    ensures exists k :: 0 <= k <= |s| && GlobMatch(p1, s[..k]) && GlobMatch(p2, s[k..])
    decreases |p1| + |s|
  {
    if |p1| == 0 {
      assert p1 + p2 == p2 && s[..0] == "" && s[0..] == s;
      assert GlobMatch(p1, s[..0]) && GlobMatch(p2, s[0..]);
    } else {
      assert (p1 + p2)[0] == p1[0] && (p1 + p2)[1..] == p1[1..] + p2;
      if p1[0] != '*' && p1[0] != '?' {
        GlobSplitShift(p1, p2, s);
      } else if GlobMatch(p1[1..] + p2, s) {
        GlobSplit(p1[1..], p2, s);
        var k :| 0 <= k <= |s| && GlobMatch(p1[1..], s[..k]) && GlobMatch(p2, s[k..]);
        assert GlobMatch(p1, s[..k]);
      } else if p1[0] == '*' {
        GlobSplit(p1, p2, s[1..]);
        var k :| 0 <= k <= |s[1..]| && GlobMatch(p1, s[1..][..k]) && GlobMatch(p2, s[1..][k..]);
        SliceShift(s, k);
        assert GlobMatch(p1, s[..k + 1]);
      } else {
        GlobSplitShift(p1, p2, s);
      }
    }
  }

  /** The step of `GlobSplit` where the first character of `p1` takes exactly one character of `s`. */
  lemma {:induction false} GlobSplitShift(p1: string, p2: string, s: string)
    requires |p1| > 0 && |s| > 0 && p1[0] != '*'
    requires if p1[0] == '?' then IsRegexAny(s[0]) else s[0] == p1[0]
    requires GlobMatch(p1[1..] + p2, s[1..])
    ensures exists k :: 0 <= k <= |s| && GlobMatch(p1, s[..k]) && GlobMatch(p2, s[k..])
    decreases |p1| + |s|, 0
  {
    GlobSplit(p1[1..], p2, s[1..]);
    var k :| 0 <= k <= |s[1..]| && GlobMatch(p1[1..], s[1..][..k]) && GlobMatch(p2, s[1..][k..]);
    SliceShift(s, k);
    assert GlobMatch(p1, s[..k + 1]);
  }

  /** Cutting `s` after `k + 1` characters is cutting its tail after `k`. */
  lemma SliceShift(s: string, k: nat)
    requires k < |s|
    ensures s[..k + 1][0] == s[0]
    ensures s[..k + 1][1..] == s[1..][..k]
    ensures s[k + 1..] == s[1..][k..]
  {
    assert forall j :: 0 <= j < k ==> s[..k + 1][1..][j] == s[j + 1] == s[1..][..k][j];
    assert forall j :: 0 <= j < |s| - k - 1 ==> s[k + 1..][j] == s[k + 1 + j] == s[1..][k..][j];
  }

  /** Without `*`, a glob matches names no longer than itself. */
  lemma {:induction false} GlobLength(p: string, s: string)
    requires forall k :: 0 <= k < |p| ==> p[k] != '*'
    requires GlobMatch(p, s)
    ensures |s| <= |p|
    decreases |p| + |s|
  {
    if |p| > 0 {
      if p[0] == '?' && GlobMatch(p[1..], s) {
        GlobLength(p[1..], s);
      } else {
        GlobLength(p[1..], s[1..]);
      }
    }
  }

  /** A pattern with a leading `!`. */
  predicate IsNegated(p: string) {
    |p| > 0 && p[0] == '!'
  }

  /** The glob of a pattern, without its `!`. */
  function GlobOf(p: string): string {
    if IsNegated(p) then p[1..] else p
  }

  /** The patterns whose negation flag is `negated`, in their original order. */
  function Keep(ps: seq<string>, negated: bool): (r: seq<string>)
    ensures forall x :: x in r <==> x in ps && IsNegated(x) == negated
  {
    if |ps| == 0 then []
    else if IsNegated(ps[0]) == negated then [ps[0]] + Keep(ps[1..], negated)
    else Keep(ps[1..], negated)
  }

  lemma {:induction false} KeepPartition(ps: seq<string>)
    ensures multiset(Keep(ps, true)) + multiset(Keep(ps, false)) == multiset(ps)
  {
    if |ps| > 0 {
      KeepPartition(ps[1..]);
      assert ps == [ps[0]] + ps[1..];
    }
  }

  /** `Sort-Object { $_.StartsWith("!") } -Descending`, taken as a stable
      sort: every negated pattern, then every other one, each group in its
      original order. The result is a permutation of the patterns. */
  function NegatedFirst(ps: seq<string>): (r: seq<string>)
    ensures multiset(r) == multiset(ps)
    ensures forall i, j :: 0 <= i < j < |r| && !IsNegated(r[i]) ==> !IsNegated(r[j])
  {
    KeepPartition(ps);
    var negs := Keep(ps, true);
    var plain := Keep(ps, false);
    assert forall i :: 0 <= i < |negs| ==> IsNegated(negs[i]) by {
      forall i | 0 <= i < |negs| ensures IsNegated(negs[i]) {
        assert negs[i] in negs;
      }
    }
    assert forall i :: 0 <= i < |plain| ==> !IsNegated(plain[i]) by {
      forall i | 0 <= i < |plain| ensures !IsNegated(plain[i]) {
        assert plain[i] in plain;
      }
    }
    negs + plain
  }

  /** The loop of `testGlob`: the first pattern that matches decides, true
      for a plain one and false for a negated one; no match means false. */
  function Evaluate(ps: seq<string>, s: string): bool {
    if |ps| == 0 then false
    else if IsMatch(GlobOf(ps[0]), s) then !IsNegated(ps[0])
    else Evaluate(ps[1..], s)
  }

  lemma {:induction false} EvaluatePlain(ps: seq<string>, s: string)
    requires forall i :: 0 <= i < |ps| ==> !IsNegated(ps[i])
    ensures Evaluate(ps, s) <==> exists p :: p in ps && IsMatch(p, s)
  {
    if |ps| > 0 {
      EvaluatePlain(ps[1..], s);
      assert ps == [ps[0]] + ps[1..];
    }
  }

  lemma {:induction false} EvaluateNegatedFirst(negs: seq<string>, plain: seq<string>, s: string)
    requires forall i :: 0 <= i < |negs| ==> IsNegated(negs[i])
    requires forall i :: 0 <= i < |plain| ==> !IsNegated(plain[i])
    ensures Evaluate(negs + plain, s) <==>
              && (forall p :: p in negs ==> !IsMatch(GlobOf(p), s))
              && (exists p :: p in plain && IsMatch(p, s))
  {
    if |negs| == 0 {
      assert negs + plain == plain;
      EvaluatePlain(plain, s);
    } else {
      assert (negs + plain)[1..] == negs[1..] + plain;
      EvaluateNegatedFirst(negs[1..], plain, s);
      assert negs == [negs[0]] + negs[1..];
    }
  }

  /** `testGlob`: false when some negated pattern matches the name; otherwise
      true exactly when some plain pattern matches it. */
  function TestGlob(patternList: string, s: string): (r: bool)
    ensures r <==>
              && (forall p :: p in Split(patternList) && IsNegated(p) ==> !IsMatch(p[1..], s))
              && (exists p :: p in Split(patternList) && !IsNegated(p) && IsMatch(p, s))
  {
    var ps := Split(patternList);
    var negs := Keep(ps, true);
    var plain := Keep(ps, false);
    assert NegatedFirst(ps) == negs + plain;
    assert forall i :: 0 <= i < |negs| ==> IsNegated(negs[i]) by {
      forall i | 0 <= i < |negs| ensures IsNegated(negs[i]) {
        assert negs[i] in negs;
      }
    }
    assert forall i :: 0 <= i < |plain| ==> !IsNegated(plain[i]) by {
      forall i | 0 <= i < |plain| ensures !IsNegated(plain[i]) {
        assert plain[i] in plain;
      }
    }
    EvaluateNegatedFirst(negs, plain, s);
    Evaluate(NegatedFirst(ps), s)
  }

  lemma SplitExample()
    ensures Split("*,!bar") == ["*", "!bar"]
  {
    var list := "*,!bar";
    assert RunEnd(list, 0, IsFieldChar) == 1 by {
      assert IsFieldChar(list[0]) && !IsFieldChar(list[1]);
    }
    assert RunEnd(list, 1, IsSplitChar) == 2 by {
      assert IsSplitChar(list[1]) && !IsSplitChar(list[2]);
    }
    var tail := list[2..];
    assert tail == "!bar";
    assert RunEnd(tail, 0, IsFieldChar) == 4 by {
      assert forall k :: 0 <= k < 4 ==> IsFieldChar(tail[k]);
    }
    assert Split(tail) == [tail];
    SplitStep(list, 1, 2);
    assert list[..1] == "*";
  }

  /** A negated pattern overrides a wildcard listed before it: with a list
      such as `*,!bar`, every line-feed-free name except `bar` is accepted. */
  lemma NegationOverridesStar(list: string, host: string, name: string)
    requires Split(list) == ["*", "!" + host]
    requires forall k :: 0 <= k < |host| ==> !IsWildcard(host[k])
    requires forall k :: 0 <= k < |name| ==> IsRegexAny(name[k])
    ensures TestGlob(list, name) <==> name != host
  {
    var neg := "!" + host;
    assert neg[1..] == host;
    LiteralGlob(host, name);
    StarGlob(name);
    assert IsMatch(host, name) <==> name == host;
    assert IsMatch("*", name);
    assert forall p :: p in Split(list) && IsNegated(p) ==> p == neg;
  }

  lemma NegationExample()
    ensures forall name: string :: (forall k :: 0 <= k < |name| ==> IsRegexAny(name[k])) ==>
              (TestGlob("*,!bar", name) <==> name != "bar")
  {
    SplitExample();
    assert "!bar" == "!" + "bar";
    forall name: string | forall k :: 0 <= k < |name| ==> IsRegexAny(name[k])
      ensures TestGlob("*,!bar", name) <==> name != "bar"
    {
      NegationOverridesStar("*,!bar", "bar", name);
    }
  }
}
