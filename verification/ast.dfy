/** The tree of an OpenSSH client config: a root sequence of nodes, where a
    `Host` or `Match` directive owns the section of nodes that follows it. */
module Ast {

  /** One line of config text. `before` is the whitespace that precedes the
      line's content and `after` the line breaks that end it, both verbatim. */
  datatype Node =
    | Comment(before: string, content: string, after: string)
    | Directive(before: string, param: string, separator: string, value: string,
                quoted: bool, after: string, section: Owned)

  /** The section a directive owns, if any. */
  datatype Owned = NoSection | Section(nodes: seq<Node>)

  /** RE_SECTION_DIRECTIVE, `^(Host|Match)$`. PCRE's `$` also matches just
      before a final line feed, so "Host\n" and "Match\n" are section keys too. */
  predicate IsSectionKey(k: string) {
    k == "Host" || k == "Match" || k == "Host\n" || k == "Match\n"
  }

  /** The anchored pattern read directly: a key opens a section when it is
      `Host` or `Match` once at most one final line feed is dropped. */
  lemma SectionKeyAnchors(k: string)
    ensures IsSectionKey(k) <==>
      || k == "Host" || k == "Match"
      || (|k| > 0 && k[|k| - 1] == '\n' && (k[..|k| - 1] == "Host" || k[..|k| - 1] == "Match"))
  {
    if |k| > 0 && k[|k| - 1] == '\n' {
      assert k == k[..|k| - 1] + "\n";
    }
  }

  /** A directive that opens a section. */
  predicate IsSectionNode(n: Node) {
    n.Directive? && IsSectionKey(n.param)
  }

  /** A node that owns no section. */
  predicate IsLeaf(n: Node) {
    n.Comment? || n.section.NoSection?
  }

  /** A root-level `Host` directive whose value is exactly `host`. */
  predicate IsHostEntry(n: Node, host: string) {
    n.Directive? && n.param == "Host" && n.value == host
  }

  /** The nodes of the section a node owns, empty when it owns none. */
  function Children(n: Node): seq<Node> {
    if n.Directive? && n.section.Section? then n.section.nodes else []
  }

  /** The contents of a section: leaves that open no section of their own. */
  predicate IsSectionBody(ns: seq<Node>) {
    forall k :: 0 <= k < |ns| ==> IsLeaf(ns[k]) && !IsSectionNode(ns[k])
  }

  /** The shape the parser builds: every section directive owns exactly one
      section of leaves (so nesting is at most one deep), every other root
      node owns nothing, and no plain node follows a section directive at
      the root (it would have gone into that section). */
  predicate WellFormed(root: seq<Node>) {
    && (forall i :: 0 <= i < |root| && IsSectionNode(root[i]) ==>
          root[i].section.Section? && IsSectionBody(root[i].section.nodes))
    && (forall i :: 0 <= i < |root| && !IsSectionNode(root[i]) ==> IsLeaf(root[i]))
    && (forall i, j :: 0 <= i < j < |root| && IsSectionNode(root[i]) ==> IsSectionNode(root[j]))
  }

  /** The node with `text` appended to its `after`. */
  function AppendAfter(n: Node, text: string): (r: Node)
    ensures r.after == n.after + text
    ensures r.before == n.before && r.Comment? == n.Comment?
    ensures r.(after := n.after) == n
  {
    match n
    case Comment(b, c, a) => Comment(b, c, a + text)
    case Directive(b, p, sep, v, q, a, sec) => Directive(b, p, sep, v, q, a + text, sec)
  }

  /** The node without its section. */
  function Strip(n: Node): (r: Node)
    ensures IsLeaf(r)
  {
    if n.Directive? then n.(section := NoSection) else n
  }

  /** The nodes of a tree in document (pre-order) order, each without its section. */
  function FlattenNode(n: Node): seq<Node>
    decreases n
  {
    [Strip(n)] + match n {
      case Directive(_, _, _, _, _, _, Section(cs)) => Flatten(cs)
      case _ => []
    }
  }

  function Flatten(ns: seq<Node>): seq<Node>
    decreases ns
  {
    if |ns| == 0 then [] else FlattenNode(ns[0]) + Flatten(ns[1..])
  }

  lemma {:induction false} FlattenAppend(a: seq<Node>, b: seq<Node>)
    ensures Flatten(a + b) == Flatten(a) + Flatten(b)
  {
    if |a| == 0 {
      assert a + b == b;
    } else {
      assert (a + b)[0] == a[0];
      assert (a + b)[1..] == a[1..] + b;
      FlattenAppend(a[1..], b);
    }
  }

  lemma FlattenSingle(n: Node)
    ensures Flatten([n]) == FlattenNode(n)
  {
    assert [n][1..] == [];
  }
}
