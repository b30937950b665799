/** `SshConfig::stringify`: a pre-order walk that writes each node's
    `before`, its content and its `after`, then the section it owns. */
module Serializer {
  import opened Text
  import opened Ast
  import opened Lexer

  /** A directive value is written in double quotes when it was quoted in the
      source, or when it is an `IdentityFile` value holding whitespace. */
  predicate NeedsQuotes(n: Node)
    requires n.Directive?
  {
    n.quoted || (n.param == "IdentityFile" && HasSpace(n.value))
  }

  /** The value text a directive is written with. */
  function WrittenValue(n: Node): string
    requires n.Directive?
  {
    if NeedsQuotes(n) then "\"" + n.value + "\"" else n.value
  }

  /** The text of one node's own line, without its section: it starts with
      the node's `before` and ends with its `after`. */
  function Render(n: Node): (r: string)
    ensures |r| >= |n.before| + |n.after|
    ensures r[..|n.before|] == n.before && r[|r| - |n.after|..] == n.after
  {
    match n
    case Comment(before, content, after) => before + content + after
    case Directive(before, param, sep, _, _, after, _) => before + param + sep + WrittenValue(n) + after
  }

  /** The quoting rule undone: for a written value that is quoted, or that
      has nothing for `trim` to drop and no quotes of its own, trimming and
      unquoting the written value give back the same value, with the
      `quoted` flag set exactly when the serialiser added quotes. An
      `IdentityFile` value holding whitespace that was not quoted comes back
      quoted. */
  lemma QuotedValueReads(n: Node)
    requires n.Directive?
    requires NeedsQuotes(n) || (Trim(n.value) == n.value && !IsQuoted(n.value))
    ensures Unquote(Trim(WrittenValue(n))) == (n.value, NeedsQuotes(n))
  {
    var w := WrittenValue(n);
    if NeedsQuotes(n) {
      assert w[0] == '"' && w[|w| - 1] == '"';
      assert Trim(w) == w;
      assert w[1..|w| - 1] == n.value;
    }
  }

  /** The concatenated text of a sequence of lines, ignoring sections. */
  function RenderAll(ns: seq<Node>): string {
    if |ns| == 0 then "" else Render(ns[0]) + RenderAll(ns[1..])
  }

  function StringifyNode(n: Node): string
    decreases n
  {
    Render(n) + match n {
      case Directive(_, _, _, _, _, _, Section(cs)) => Stringify(cs)
      case _ => ""
    }
  }

  /** `stringify` of a root or of a section. */
  function Stringify(ns: seq<Node>): string
    decreases ns
  {
    if |ns| == 0 then "" else StringifyNode(ns[0]) + Stringify(ns[1..])
  }

  lemma {:induction false} RenderAllAppend(a: seq<Node>, b: seq<Node>)
    ensures RenderAll(a + b) == RenderAll(a) + RenderAll(b)
  {
    if |a| == 0 {
      assert a + b == b;
    } else {
      assert (a + b)[1..] == a[1..] + b;
      RenderAllAppend(a[1..], b);
    }
  }

  lemma RenderAllCons(n: Node, ns: seq<Node>)
    ensures RenderAll([n] + ns) == Render(n) + RenderAll(ns)
  {
    assert ([n] + ns)[1..] == ns;
  }

  lemma {:induction false} StringifyAppend(a: seq<Node>, b: seq<Node>)
    ensures Stringify(a + b) == Stringify(a) + Stringify(b)
  {
    if |a| == 0 {
      assert a + b == b;
    } else {
      assert (a + b)[1..] == a[1..] + b;
      StringifyAppend(a[1..], b);
    }
  }

  /** The serialiser writes exactly the lines of the tree in pre-order:
      rendering a tree is rendering its flattened line sequence. */
  lemma {:induction false} StringifyIsPreorder(ns: seq<Node>)
    ensures Stringify(ns) == RenderAll(Flatten(ns))
    decreases ns
  {
    if |ns| > 0 {
      StringifyNodeIsPreorder(ns[0]);
      StringifyIsPreorder(ns[1..]);
      RenderAllAppend(FlattenNode(ns[0]), Flatten(ns[1..]));
    }
  }

  lemma {:induction false} StringifyNodeIsPreorder(n: Node)
    ensures StringifyNode(n) == RenderAll(FlattenNode(n))
    decreases n
  {
    assert Render(Strip(n)) == Render(n);
    assert RenderAll([Strip(n)]) == Render(n);
    match n {
      case Directive(_, _, _, _, _, _, Section(cs)) =>
        StringifyIsPreorder(cs);
        RenderAllAppend([Strip(n)], Flatten(cs));
      case _ =>
        assert FlattenNode(n) == [Strip(n)];
    }
  }
}
