/** Lossless round trip: serialising a parsed config reproduces the text,
    provided no directive line loses characters to `trim` and no unquoted
    `IdentityFile` value holding whitespace gets quotes added on output. */
module RoundTrip {
  import opened Text
  import opened Ast
  import opened Lexer
  import opened Parser
  import opened Serializer
  import opened Edits

  /** The line at `i` is written back as it was read. */
  predicate LineExact(s: string, i: nat)
    requires i < |s|
  {
    var n := Line(s, i).node;
    || n.Comment?
    || (&& Trim(RawValue(s, i)) == RawValue(s, i)
        && !(n.param == "IdentityFile" && !n.quoted && HasSpace(n.value)))
  }

  /** Every line from position `i` on is written back as it was read. */
  predicate ExactFrom(s: string, i: nat)
    requires i <= |s|
    decreases |s| - i
  {
    i == |s| || (LineExact(s, i) && ExactFrom(s, Line(s, i).next))
  }

  lemma {:induction false} SliceConcat(s: string, i: nat, j: nat, k: nat)
    requires i <= j <= k <= |s|
    ensures s[i..j] + s[j..k] == s[i..k]
  {
  }

  lemma {:induction false} SuffixConcat(s: string, i: nat, j: nat)
    requires i <= j <= |s|
    ensures s[i..j] + s[j..] == s[i..]
  {
  }

  /** One line renders back to exactly the text it was scanned from. */
  lemma LineRoundTrip(s: string, i: nat)
    requires i < |s| && LineExact(s, i)
    ensures Render(Line(s, i).node) == s[i..Line(s, i).next]
  {
    var a := ContentStart(s, i);
    if StartsComment(s, i) {
      var b := RestOfLineEnd(s, a);
      var c := LineBreakEnd(s, b);
      assert Line(s, i) == CommentLine(s, i, a);
      SliceConcat(s, i, a, b);
      SliceConcat(s, i, b, c);
    } else {
      var b := OptionEnd(s, a);
      var c := SeparatorEnd(s, b);
      var d := RestOfLineEnd(s, c);
      var e := LineBreakEnd(s, d);
      var n := Line(s, i).node;
      assert Line(s, i) == DirectiveLine(s, i);
      assert RawValue(s, i) == s[c..d];
      assert WrittenValue(n) == s[c..d];
      assert Render(n) == s[i..a] + s[a..b] + s[b..c] + s[c..d] + s[d..e];
      SliceConcat(s, i, a, b);
      SliceConcat(s, i, b, c);
      SliceConcat(s, i, c, d);
      SliceConcat(s, i, d, e);
    }
  }

  lemma {:induction false} LinesRoundTrip(s: string, i: nat)
    requires i <= |s| && ExactFrom(s, i)
    ensures RenderAll(Lines(s, i)) == s[i..]
    decreases |s| - i
  {
    if i < |s| {
      var sc := Line(s, i);
      var rest := Lines(s, sc.next);
      assert LineExact(s, i) && ExactFrom(s, sc.next);
      LineRoundTrip(s, i);
      LinesRoundTrip(s, sc.next);
      LinesStep(s, i);
      RenderAllCons(sc.node, rest);
      SuffixConcat(s, i, sc.next);
      assert RenderAll(Lines(s, i)) == s[i..sc.next] + s[sc.next..];
    } else {
      assert s[i..] == "";
    }
  }

  lemma LinesStep(s: string, i: nat)
    requires i < |s|
    ensures Lines(s, i) == [Line(s, i).node] + Lines(s, Line(s, i).next)
  {
  }

  /** `stringify(parseSshConfig(x)) == x` for every text whose lines are all
      written back as read. */
  lemma RoundTripText(s: string)
    requires ExactFrom(s, 0)
    ensures Stringify(Parse(s)) == s
  {
    StringifyIsPreorder(Parse(s));
    LinesRoundTrip(s, 0);
    assert s[0..] == s;
  }

  /** Reparsing the serialised text gives back the same tree. */
  lemma ReparseIsIdentity(s: string)
    requires ExactFrom(s, 0)
    ensures Parse(Stringify(Parse(s))) == Parse(s)
  {
    RoundTripText(s);
  }

  /** A run that is known to stop at `j` ends there. */
  lemma RunEndAt(s: string, i: nat, keep: char -> bool, j: nat)
    requires i <= j <= |s|
    requires forall k :: i <= k < j ==> keep(s[k])
    requires j == |s| || !keep(s[j])
    ensures RunEnd(s, i, keep) == j
  {
  }

  /** The key `IdentityFile` runs up to the blank at position 12. */
  lemma IdentityFileKeyEnds(s: string)
    requires |s| > 12 && s[..12] == "IdentityFile" && s[12] == ' '
    ensures ContentStart(s, 0) == 0 && !StartsComment(s, 0)
    ensures OptionEnd(s, 0) == 12
  {
    assert s[0] == s[..12][0] == 'I';
    RunEndAt(s, 0, IsSpace, 0);
    forall k | 0 <= k < 12 ensures IsOptionChar(s[k]) {
      assert s[k] == s[..12][k];
    }
    RunEndAt(s, 0, IsOptionChar, 12);
  }

  /** An `IdentityFile` line whose value text `w` has no line break, no
      leading `=` and nothing for `trim` to drop scans as one directive with
      that value text, unquoted by the lexer. */
  lemma IdentityFileLine(w: string)
    requires |w| > 0 && !IsSpace(w[0]) && w[0] != '=' && Trim(w) == w
    requires forall k :: 0 <= k < |w| ==> !IsLineBreak(w[k])
    ensures var s := "IdentityFile " + w;
      Line(s, 0) == Scan(Directive("", "IdentityFile", " ", Unquote(w).0, Unquote(w).1, "", NoSection), |s|)
  {
    var s := "IdentityFile " + w;
    assert s[..12] == "IdentityFile" && s[12] == ' ' && s[13] == w[0];
    IdentityFileKeyEnds(s);
    RunEndAt(s, 12, IsSpace, 13);
    RunEndAt(s, 13, IsSpace, 13);
    assert SeparatorEnd(s, 12) == 13;
    forall k | 13 <= k < |s| ensures IsNotLineBreak(s[k]) {
      assert s[k] == w[k - 13];
    }
    RunEndAt(s, 13, IsNotLineBreak, |s|);
    RunEndAt(s, |s|, IsLineBreak, |s|);
    assert ValueSpan(s, 0) == (13, |s|);
    assert RawValue(s, 0) == w;
    assert s[0..12] == "IdentityFile" && s[12..13] == " " && s[0..0] == "" && s[|s|..|s|] == "";
    assert Line(s, 0) == DirectiveLine(s, 0);
  }

  /** A text of one line is written back as that line's rendering. */
  lemma OneLineText(s: string)
    requires |s| > 0 && Line(s, 0).next == |s|
    ensures Stringify(Parse(s)) == Render(Line(s, 0).node)
  {
    var n := Line(s, 0).node;
    assert Lines(s, 0) == [n];
    StringifyIsPreorder(Parse(s));
    assert RenderAll([n]) == Render(n);
  }

  /** Texts whose first lines differ parse to different trees. */
  lemma ParsedHeads(t: string, s: string)
    requires |t| > 0 && |s| > 0 && Line(t, 0).node != Line(s, 0).node
    ensures Parse(t) != Parse(s)
  {
    assert Flatten(Parse(t))[0] == Line(t, 0).node;
    assert Flatten(Parse(s))[0] == Line(s, 0).node;
  }

  /** An unindented `IdentityFile` directive with a one-blank separator and no line break is written as key, blank, value. */
  lemma IdentityFileRender(n: Node)
    requires n.Directive? && n.before == "" && n.param == "IdentityFile"
    requires n.separator == " " && n.after == ""
    ensures Render(n) == "IdentityFile " + WrittenValue(n)
  {
    var w := WrittenValue(n);
    assert Render(n) == "" + "IdentityFile" + " " + w + "";
    assert "" + "IdentityFile" + " " + w + "" == ("IdentityFile" + " ") + w;
  }

  /** An unquoted `IdentityFile` value with a blank in it is written back in quotes. */
  lemma RequotedText(v: string)
    requires |v| > 0 && !IsSpace(v[0]) && v[0] != '=' && Trim(v) == v && !IsQuoted(v)
    requires forall k :: 0 <= k < |v| ==> !IsLineBreak(v[k])
    requires HasSpace(v)
    ensures Line("IdentityFile " + v, 0).node.value == v && !Line("IdentityFile " + v, 0).node.quoted
    ensures Stringify(Parse("IdentityFile " + v)) == "IdentityFile " + ("\"" + v + "\"")
  {
    var s := "IdentityFile " + v;
    IdentityFileLine(v);
    var n := Line(s, 0).node;
    OneLineText(s);
    assert WrittenValue(n) == "\"" + v + "\"";
    IdentityFileRender(n);
  }

  /** The quoted text reads back with `quoted` set. */
  lemma QuotedTextReads(v: string)
    requires forall k :: 0 <= k < |v| ==> !IsLineBreak(v[k])
    ensures Line("IdentityFile " + ("\"" + v + "\""), 0).node.quoted
  {
    var w := "\"" + v + "\"";
    assert w[0] == '"' && w[|w| - 1] == '"';
    assert Trim(w) == w;
    forall k | 0 <= k < |w| ensures !IsLineBreak(w[k]) {
      if 0 < k < |w| - 1 {
        assert w[k] == v[k - 1];
      }
    }
    IdentityFileLine(w);
  }

  /** Without its precondition the reparse is not the identity: an unquoted
      `IdentityFile` value with a blank in it (`IdentityFile a b`, say) is
      written back in quotes, and reading that text again sets `quoted`. */
  lemma RequotedIdentityFile(v: string)
    requires |v| > 0 && !IsSpace(v[0]) && v[0] != '=' && Trim(v) == v && !IsQuoted(v)
    requires forall k :: 0 <= k < |v| ==> !IsLineBreak(v[k])
    requires HasSpace(v)
    ensures Parse(Stringify(Parse("IdentityFile " + v))) != Parse("IdentityFile " + v)
  {
    RequotedText(v);
    QuotedTextReads(v);
    ParsedHeads("IdentityFile " + ("\"" + v + "\""), "IdentityFile " + v);
  }

  /** `IdentityFile a b` does not survive a second parse unchanged. */
  lemma RequotedExample()
    ensures var s := "IdentityFile a b"; Parse(Stringify(Parse(s))) != Parse(s)
  {
    var v := "a b";
    assert IsSpace(v[1]);
    assert Trim(v) == v;
    assert "IdentityFile " + v == "IdentityFile a b";
    RequotedIdentityFile(v);
  }

  /** A run over a known piece `x` of the text ends where that piece ends. */
  lemma RunOver(s: string, i: nat, x: string, keep: char -> bool)
    requires i + |x| <= |s| && s[i..i + |x|] == x
    requires forall k :: 0 <= k < |x| ==> keep(x[k])
    requires i + |x| == |s| || !keep(s[i + |x|])
    ensures RunEnd(s, i, keep) == i + |x|
  {
    forall k | i <= k < i + |x| ensures keep(s[k]) {
      assert s[k] == x[k - i];
    }
    RunEndAt(s, i, keep, i + |x|);
  }

  /** The pieces of a line `before key w` followed by a line feed. */
  lemma ComposedSlices(s: string, before: string, key: string, w: string)
    requires s == before + key + " " + w + "\n"
    ensures var a := |before|; var b := a + |key|; var c := b + 1; var d := c + |w|;
      && d + 1 == |s|
      && s[0..a] == before && s[a..b] == key && s[b..c] == " " && s[c..d] == w && s[d..d + 1] == "\n"
  {
  }

  /** Where the lexer cuts the start of such a line: after the indent, and after the key. */
  lemma ComposedKeyCuts(s: string, before: string, key: string, w: string)
    requires s == before + key + " " + w + "\n"
    requires forall k :: 0 <= k < |before| ==> IsSpace(before[k])
    requires |key| > 0 && key[0] != '#'
    requires forall k :: 0 <= k < |key| ==> IsOptionChar(key[k]) && !IsSpace(key[k])
    ensures var a := |before|;
      && ContentStart(s, 0) == a && !StartsComment(s, 0)
      && OptionEnd(s, a) == a + |key|
  {
    var a := |before|;
    var b := a + |key|;
    ComposedSlices(s, before, key, w);
    assert s[a] == s[a..b][0] && s[b] == ' ';
    RunOver(s, 0, before, IsSpace);
    RunOver(s, a, key, IsOptionChar);
  }

  /** Where the lexer cuts the rest: a one-blank separator, the value up to the line feed, the line feed. */
  lemma ComposedValueCuts(s: string, before: string, key: string, w: string)
    requires s == before + key + " " + w + "\n"
    requires |w| > 0 && !IsSpace(w[0]) && w[0] != '='
    requires forall k :: 0 <= k < |w| ==> IsNotLineBreak(w[k])
    ensures var b := |before| + |key|; var c := b + 1; var d := c + |w|;
      && SeparatorEnd(s, b) == c && RestOfLineEnd(s, c) == d && LineBreakEnd(s, d) == |s|
  {
    var b := |before| + |key|;
    var c := b + 1;
    var d := c + |w|;
    ComposedSlices(s, before, key, w);
    assert s[c] == s[c..d][0];
    RunOver(s, b, " ", IsSpace);
    RunOver(s, c, "", IsSpace);
    RunOver(s, c, w, IsNotLineBreak);
    RunOver(s, d, "\n", IsLineBreak);
  }

  /** Such a line scans as one directive with that indent, key and value text. */
  lemma ComposedLine(s: string, before: string, key: string, w: string)
    requires s == before + key + " " + w + "\n"
    requires forall k :: 0 <= k < |before| ==> IsSpace(before[k])
    requires |key| > 0 && key[0] != '#'
    requires forall k :: 0 <= k < |key| ==> IsOptionChar(key[k]) && !IsSpace(key[k])
    requires |w| > 0 && !IsSpace(w[0]) && w[0] != '='
    requires forall k :: 0 <= k < |w| ==> IsNotLineBreak(w[k])
    ensures var u := Unquote(Trim(w));
      Line(s, 0) == Scan(Directive(before, key, " ", u.0, u.1, "\n", NoSection), |s|)
  {
    var a := |before|;
    var b := a + |key|;
    var c := b + 1;
    var d := c + |w|;
    ComposedSlices(s, before, key, w);
    ComposedKeyCuts(s, before, key, w);
    ComposedValueCuts(s, before, key, w);
    assert ValueSpan(s, 0) == (c, d);
    var r := DirectiveLine(s, 0);
    assert r.node.before == before && r.node.param == key && r.node.separator == " ";
    assert r.node.after == "\n" && r.next == |s|;
    assert RawValue(s, 0) == w;
    assert Line(s, 0) == r;
  }

  /** A directive line `add` writes for a pair is read back by the parser as
      that pair: same key, same value, the `quoted` flag set exactly when the
      serialiser quoted it, and the indent and line feed kept. The key must be
      one the lexer reads as a key (no blank, `=` or line break, not starting
      with `#`), the value non-empty with nothing for `trim` to drop, no line
      break, no leading `=`, and no quotes of its own. */
  lemma NewLineReads(key: string, value: string, before: string)
    requires forall k :: 0 <= k < |before| ==> IsSpace(before[k])
    requires |key| > 0 && key[0] != '#'
    requires forall k :: 0 <= k < |key| ==> IsOptionChar(key[k]) && !IsSpace(key[k])
    requires |value| > 0 && !IsSpace(value[0]) && value[0] != '=' && Trim(value) == value
    requires forall k :: 0 <= k < |value| ==> !IsLineBreak(value[k])
    requires !IsQuoted(value)
    ensures var n := NewLine(key, value, before); var s := Render(n);
      && Line(s, 0).next == |s|
      && Line(s, 0).node == Directive(before, key, " ", value, NeedsQuotes(n), "\n", NoSection)
  {
    var n := NewLine(key, value, before);
    var w := WrittenValue(n);
    QuotedValueReads(n);
    WrittenValueShape(n);
    assert Render(n) == before + key + " " + w + "\n";
    ComposedLine(Render(n), before, key, w);
  }

  /** What the written value of a `NewLine` looks like to the lexer. */
  lemma WrittenValueShape(n: Node)
    requires n.Directive? && |n.value| > 0 && !IsSpace(n.value[0]) && n.value[0] != '='
    requires forall k :: 0 <= k < |n.value| ==> !IsLineBreak(n.value[k])
    ensures var w := WrittenValue(n);
      && |w| > 0 && !IsSpace(w[0]) && w[0] != '='
      && forall k :: 0 <= k < |w| ==> IsNotLineBreak(w[k])
  {
    var w := WrittenValue(n);
    if NeedsQuotes(n) {
      forall k | 0 <= k < |w| ensures IsNotLineBreak(w[k]) {
        if 0 < k < |w| - 1 {
          assert w[k] == n.value[k - 1];
        }
      }
    }
  }
}
