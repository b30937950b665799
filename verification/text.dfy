/** Character classes and the generic forward scanner that the lexer,
    the serialiser and the glob matcher are built from. */
module Text {

  /** PCRE `\s` (the parser's RE_SPACE) in byte mode: tab, line feed,
      vertical tab, form feed, carriage return and space. Line breaks are
      included, so a run of "spaces" can cross lines. */
  predicate IsSpace(c: char) {
    c == ' ' || c == '\t' || c == '\n' || c == '\U{000B}' || c == '\U{000C}' || c == '\r'
  }

  /** RE_LINE_BREAK: carriage return or line feed. */
  predicate IsLineBreak(c: char) {
    c == '\r' || c == '\n'
  }

  /** The characters PHP's `trim` strips by default. */
  predicate IsTrimChar(c: char) {
    c == ' ' || c == '\t' || c == '\n' || c == '\r' || c == '\0' || c == '\U{000B}'
  }

  /** `\s` of the .NET regex engine used by the glob matcher's splitter:
      every character `Char.IsWhiteSpace` accepts. */
  predicate IsDotNetSpace(c: char) {
    || ('\U{0009}' <= c <= '\U{000D}')
    || c == ' ' || c == '\U{0085}' || c == '\U{00A0}' || c == '\U{1680}'
    || ('\U{2000}' <= c <= '\U{200A}')
    || c == '\U{2028}' || c == '\U{2029}' || c == '\U{202F}' || c == '\U{205F}' || c == '\U{3000}'
  }

  /** True when `s` contains a `\s` character (the serialiser's re-quoting test). */
  predicate HasSpace(s: string) {
    exists k :: 0 <= k < |s| && IsSpace(s[k])
  }

  /** The end of the maximal run of characters satisfying `keep` that
      starts at position `i`: the shape of every scanning loop of the lexer. */
  function RunEnd(s: string, i: nat, keep: char -> bool): (j: nat)
    requires i <= |s|
    ensures i <= j <= |s|
    ensures forall k :: i <= k < j ==> keep(s[k])
    ensures j == |s| || !keep(s[j])
    decreases |s| - i
  {
    if i == |s| || !keep(s[i]) then i else RunEnd(s, i + 1, keep)
  }

  /** The start of the maximal suffix of `s` made of trim characters. */
  function TrailingTrimStart(s: string): (b: nat)
    ensures b <= |s|
    ensures forall k :: b <= k < |s| ==> IsTrimChar(s[k])
    ensures b == 0 || !IsTrimChar(s[b - 1])
  {
    if |s| == 0 || !IsTrimChar(s[|s| - 1]) then |s| else TrailingTrimStart(s[..|s| - 1])
  }

  /** PHP `trim`: drops leading and trailing trim characters, and only those. */
  function Trim(s: string): (r: string)
    ensures |r| <= |s|
    ensures |r| > 0 ==> !IsTrimChar(r[0]) && !IsTrimChar(r[|r| - 1])
    ensures r == s <==> |s| == 0 || (!IsTrimChar(s[0]) && !IsTrimChar(s[|s| - 1]))
    ensures exists a, b ::
              && 0 <= a <= b <= |s| && r == s[a..b]
              && (forall k :: 0 <= k < a ==> IsTrimChar(s[k]))
              && (forall k :: b <= k < |s| ==> IsTrimChar(s[k]))
  {
    var a := RunEnd(s, 0, IsTrimChar);
    if a == |s| then
      assert s[|s|..|s|] == "";
      ""
    else
      var b := TrailingTrimStart(s);
      assert a < b;
      s[a..b]
  }
}
