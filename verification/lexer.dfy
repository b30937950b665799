/** The lexer of `parseSshConfig`: scanning primitives over the input text
    and the `line` step, which turns the text at one position into one
    Comment or Directive node. Positions stand for the parser's cursor; the
    character at a position is its one-character lookahead. */
module Lexer {
  import opened Text
  import opened Ast

  /** One scanned line: the node built and the position where the next line starts. */
  datatype Scan = Scan(node: Node, next: nat)

  /** Characters an option (directive key) may contain: anything but a blank or `=`. */
  predicate IsOptionChar(c: char) {
    c != ' ' && c != '='
  }

  predicate IsNotLineBreak(c: char) {
    !IsLineBreak(c)
  }

  /** `space`: a run of `\s` characters, line breaks included. */
  function SpaceEnd(s: string, i: nat): nat
    requires i <= |s|
  {
    RunEnd(s, i, IsSpace)
  }

  /** `linebreak`: a run of carriage returns and line feeds. */
  function LineBreakEnd(s: string, i: nat): nat
    requires i <= |s|
  {
    RunEnd(s, i, IsLineBreak)
  }

  /** `option`: runs until a blank, an `=` or the end of input. */
  function OptionEnd(s: string, i: nat): nat
    requires i <= |s|
  {
    RunEnd(s, i, IsOptionChar)
  }

  /** `value` and `comment`: run until a line break or the end of input. */
  function RestOfLineEnd(s: string, i: nat): nat
    requires i <= |s|
  {
    RunEnd(s, i, IsNotLineBreak)
  }

  /** `separator`: spaces, at most one `=`, then spaces. The separator ends
      at a character that is neither whitespace nor a second `=`. */
  function SeparatorEnd(s: string, i: nat): (j: nat)
    requires i <= |s|
    ensures i <= j <= |s|
    ensures forall k :: i <= k < j ==> IsSpace(s[k]) || s[k] == '='
    ensures forall k1, k2 :: i <= k1 < k2 < j && s[k1] == '=' ==> s[k2] != '='
    ensures j == |s| || !IsSpace(s[j])
    ensures j < |s| && s[j] == '=' ==> exists k :: i <= k < j && s[k] == '='
  {
    var a := SpaceEnd(s, i);
    var b := if a < |s| && s[a] == '=' then a + 1 else a;
    SpaceEnd(s, b)
  }

  /** RE_QUOTED, `^(")(.*)\1$`, on a value (which never holds a line break):
      at least two characters, the first and the last a double quote. */
  predicate IsQuoted(v: string) {
    |v| >= 2 && v[0] == '"' && v[|v| - 1] == '"'
  }

  /** Where the content of the line at `i` starts, after its `before` run. */
  function ContentStart(s: string, i: nat): nat
    requires i <= |s|
  {
    SpaceEnd(s, i)
  }

  predicate StartsComment(s: string, i: nat)
    requires i <= |s|
  {
    ContentStart(s, i) < |s| && s[ContentStart(s, i)] == '#'
  }

  /** The start and end of the untrimmed value text of the directive line at `i`. */
  function ValueSpan(s: string, i: nat): (span: (nat, nat))
    requires i <= |s|
    ensures ContentStart(s, i) <= span.0 <= span.1 <= |s|
  {
    var c := SeparatorEnd(s, OptionEnd(s, ContentStart(s, i)));
    (c, RestOfLineEnd(s, c))
  }

  /** The value text of the directive line at `i` as written, before `trim`. */
  function RawValue(s: string, i: nat): string
    requires i <= |s|
  {
    var span := ValueSpan(s, i);
    s[span.0..span.1]
  }

  /** `unquote`: the stored form of a trimmed value and its `quoted` flag. */
  function Unquote(t: string): (r: (string, bool))
    ensures r.1 <==> IsQuoted(t)
    ensures r.1 ==> "\"" + r.0 + "\"" == t
    ensures !r.1 ==> r.0 == t
  {
    if IsQuoted(t) then
      assert t == [t[0]] + t[1..|t| - 1] + [t[|t| - 1]];
      (t[1..|t| - 1], true)
    else
      (t, false)
  }

  /** `comment`: from the `#` at `a` to the end of the line, verbatim. */
  function CommentLine(s: string, i: nat, a: nat): (r: Scan)
    requires i <= a < |s| && s[a] == '#'
    ensures a < r.next <= |s|
    ensures r.node.Comment? && r.node.before == s[i..a]
    ensures |r.node.content| > 0 && r.node.content[0] == '#'
    ensures forall k :: 0 <= k < |r.node.content| ==> !IsLineBreak(r.node.content[k])
    ensures forall k :: 0 <= k < |r.node.after| ==> IsLineBreak(r.node.after[k])
    ensures r.next == |s| || !IsLineBreak(s[r.next])
    ensures r.node.content == s[a..RestOfLineEnd(s, a)]
    ensures r.next == LineBreakEnd(s, RestOfLineEnd(s, a))
    ensures r.node.after == s[RestOfLineEnd(s, a)..r.next]
  {
    var b := RestOfLineEnd(s, a);
    var c := LineBreakEnd(s, b);
    assert s[a..b][0] == s[a];
    Scan(Comment(s[i..a], s[a..b], s[b..c]), c)
  }

  /** `directive`: an option, a separator and a trimmed, unquoted value. */
  function DirectiveLine(s: string, i: nat): (r: Scan)
    requires i <= |s|
    requires !StartsComment(s, i)
    ensures ContentStart(s, i) <= r.next <= |s|
    ensures r.node.Directive? && r.node.section.NoSection?
    ensures r.node.before == s[i..ContentStart(s, i)]
    ensures forall k :: 0 <= k < |r.node.param| ==> IsOptionChar(r.node.param[k])
    ensures forall k :: 0 <= k < |r.node.after| ==> IsLineBreak(r.node.after[k])
    ensures r.next == |s| || !IsLineBreak(s[r.next])
    ensures (r.node.value, r.node.quoted) == Unquote(Trim(RawValue(s, i)))
    ensures r.node.param == s[ContentStart(s, i)..OptionEnd(s, ContentStart(s, i))]
    ensures r.node.separator == s[OptionEnd(s, ContentStart(s, i))..ValueSpan(s, i).0]
    ensures r.next == LineBreakEnd(s, ValueSpan(s, i).1)
    ensures r.node.after == s[ValueSpan(s, i).1..r.next]
  {
    var a := ContentStart(s, i);
    var b := OptionEnd(s, a);
    var c := SeparatorEnd(s, b);
    var d := RestOfLineEnd(s, c);
    var e := LineBreakEnd(s, d);
    var u := Unquote(Trim(s[c..d]));
    Scan(Directive(s[i..a], s[a..b], s[b..c], u.0, u.1, s[d..e], NoSection), e)
  }

  /** A directive line that does not start at the end of input consumes a character. */
  lemma DirectiveLineProgress(s: string, i: nat)
    requires i < |s| && !StartsComment(s, i)
    ensures i < DirectiveLine(s, i).next
  {
    var a := ContentStart(s, i);
    if a == i {
      assert !IsSpace(s[a]);
      var b := OptionEnd(s, a);
      if s[a] == '=' {
        assert b == a;
        assert SpaceEnd(s, a) == a;
      } else {
        assert IsOptionChar(s[a]);
      }
    }
  }

  /** `line`: the whitespace before the content, then a comment when the
      lookahead is `#` and a directive otherwise, then the line breaks. Every
      line consumes at least one character, so the main loop terminates. */
  function Line(s: string, i: nat): (r: Scan)
    requires i < |s|
    ensures i < r.next <= |s|
    ensures IsLeaf(r.node)
    ensures r.node.Comment? <==> StartsComment(s, i)
  {
    if StartsComment(s, i) then
      CommentLine(s, i, ContentStart(s, i))
    else
      DirectiveLineProgress(s, i);
      DirectiveLine(s, i)
  }

  /** What one line holds, and where in the text each part comes from: its
      `before` is the whitespace run it starts with, its `after` the maximal
      run of line breaks that ends it; a comment is the rest of the line from
      its `#`; a directive key is the run up to a blank or `=`, followed by
      the separator; a value that is quoted after trimming is stored without
      the quotes and marked `quoted`, and any other value is stored trimmed. */
  lemma LineContents(s: string, i: nat)
    requires i < |s|
    ensures var r := Line(s, i);
      && r.node.before == s[i..ContentStart(s, i)]
      && (forall k :: 0 <= k < |r.node.after| ==> IsLineBreak(r.node.after[k]))
      && (r.next == |s| || !IsLineBreak(s[r.next]))
    ensures var r := Line(s, i); var a := ContentStart(s, i);
      r.node.Comment? ==>
        && |r.node.content| > 0 && r.node.content[0] == '#'
        && (forall k :: 0 <= k < |r.node.content| ==> !IsLineBreak(r.node.content[k]))
        && r.node.content == s[a..RestOfLineEnd(s, a)]
        && r.next == LineBreakEnd(s, RestOfLineEnd(s, a))
        && r.node.after == s[RestOfLineEnd(s, a)..r.next]
    ensures var r := Line(s, i); var a := ContentStart(s, i);
      r.node.Directive? ==>
        && (forall k :: 0 <= k < |r.node.param| ==> IsOptionChar(r.node.param[k]))
        && r.node.param == s[a..OptionEnd(s, a)]
        && r.node.separator == s[OptionEnd(s, a)..ValueSpan(s, i).0]
        && r.next == LineBreakEnd(s, ValueSpan(s, i).1)
        && r.node.after == s[ValueSpan(s, i).1..r.next]
    ensures var n := Line(s, i).node;
      n.Directive? ==>
        var t := Trim(RawValue(s, i));
        && (n.quoted <==> IsQuoted(t))
        && (n.quoted ==> "\"" + n.value + "\"" == t)
        && (!n.quoted ==> n.value == t)
  {
  }
}
