/** `parseSshConfig`: the line scanner driven to the end of input, and the
    tree assembler that files each node under the root or under the section
    of the most recent `Host`/`Match` directive. */
module Parser {
  import opened Ast
  import opened Lexer

  /** The nodes of the lines from position `i` to the end, in order. */
  function Lines(s: string, i: nat): (r: seq<Node>)
    requires i <= |s|
    ensures |r| <= |s| - i
    ensures |r| == 0 <==> i == |s|
    ensures forall k :: 0 <= k < |r| ==> IsLeaf(r[k])
    decreases |s| - i
  {
    if i == |s| then [] else [Line(s, i).node] + Lines(s, Line(s, i).next)
  }

  /** The assembler's state: the root so far, and whether the insertion
      cursor points at the section of the last root node (true once a
      section directive has been seen) or at the root. */
  datatype Builder = Builder(root: seq<Node>, open: bool)

  predicate Consistent(b: Builder) {
    b.open ==> |b.root| > 0 && b.root[|b.root| - 1].Directive? && b.root[|b.root| - 1].section.Section?
  }

  /** One turn of the main loop: a section directive goes to the root with a
      fresh empty section and becomes the cursor; any other node goes where
      the cursor points. */
  function Place(b: Builder, n: Node): (r: Builder)
    requires Consistent(b) && IsLeaf(n)
    ensures Consistent(r)
  {
    if IsSectionNode(n) then
      Builder(b.root + [n.(section := Section([]))], true)
    else if b.open then
      var last := b.root[|b.root| - 1];
      Builder(b.root[..|b.root| - 1] + [last.(section := Section(last.section.nodes + [n]))], true)
    else
      Builder(b.root + [n], false)
  }

  function Assemble(b: Builder, ns: seq<Node>): seq<Node>
    requires Consistent(b)
    requires forall k :: 0 <= k < |ns| ==> IsLeaf(ns[k])
    decreases |ns|
  {
    if |ns| == 0 then b.root else Assemble(Place(b, ns[0]), ns[1..])
  }

  /** The assembler's invariant: a well-formed root whose cursor is open
      exactly when the last root node is a section directive. */
  predicate Shaped(b: Builder) {
    && WellFormed(b.root)
    && (b.open <==> |b.root| > 0 && IsSectionNode(b.root[|b.root| - 1]))
  }

  lemma PlaceShape(b: Builder, n: Node)
    requires Shaped(b) && IsLeaf(n)
    ensures Consistent(b)
    ensures Shaped(Place(b, n))
    ensures Flatten(Place(b, n).root) == Flatten(b.root) + [n]
  {
    assert Strip(n) == n;
    assert FlattenNode(n) == [n];
    if IsSectionNode(n) {
      PlaceSectionShape(b, n);
    } else if b.open {
      PlaceInSectionShape(b, n);
    } else {
      PlaceAtRootShape(b, n);
    }
  }

  lemma PlaceSectionShape(b: Builder, n: Node)
    requires Shaped(b) && IsLeaf(n) && IsSectionNode(n) && FlattenNode(n) == [n]
    ensures Shaped(Place(b, n))
    ensures Flatten(Place(b, n).root) == Flatten(b.root) + [n]
  {
    var r := Place(b, n);
    var m := n.(section := Section([]));
    assert r.root == b.root + [m];
    FlattenAppend(b.root, [m]);
    FlattenSingle(m);
    assert Flatten([]) == [];
    assert Strip(m) == n;
    forall i, j | 0 <= i < j < |r.root| && IsSectionNode(r.root[i])
      ensures IsSectionNode(r.root[j])
    {
      if j < |b.root| {
        assert r.root[i] == b.root[i] && r.root[j] == b.root[j];
      }
    }
  }

  lemma PlaceInSectionShape(b: Builder, n: Node)
    requires Shaped(b) && IsLeaf(n) && !IsSectionNode(n) && b.open && FlattenNode(n) == [n]
    ensures Shaped(Place(b, n))
    ensures Flatten(Place(b, n).root) == Flatten(b.root) + [n]
  {
    var k := |b.root| - 1;
    var last := b.root[k];
    var last' := last.(section := Section(last.section.nodes + [n]));
    assert Place(b, n).root == b.root[..k] + [last'];
    assert b.root == b.root[..k] + [last];
    PlaceInSectionFlatten(b.root[..k], last, n);
    PlaceInSectionWellFormed(b.root, n);
  }

  lemma PlaceInSectionFlatten(front: seq<Node>, last: Node, n: Node)
    requires last.Directive? && last.section.Section? && FlattenNode(n) == [n]
    ensures
      var last' := last.(section := Section(last.section.nodes + [n]));
      Flatten(front + [last']) == Flatten(front + [last]) + [n]
  {
    var cs := last.section.nodes;
    var last' := last.(section := Section(cs + [n]));
    FlattenAppend(front, [last]);
    FlattenAppend(front, [last']);
    FlattenSingle(last);
    FlattenSingle(last');
    FlattenAppend(cs, [n]);
    FlattenSingle(n);
    assert Strip(last') == Strip(last);
  }

  lemma PlaceInSectionWellFormed(root: seq<Node>, n: Node)
    requires WellFormed(root) && |root| > 0 && IsSectionNode(root[|root| - 1])
    requires IsLeaf(n) && !IsSectionNode(n)
    ensures
      var k := |root| - 1;
      var last' := root[k].(section := Section(root[k].section.nodes + [n]));
      WellFormed(root[..k] + [last'])
  {
    var k := |root| - 1;
    var cs := root[k].section.nodes;
    var last' := root[k].(section := Section(cs + [n]));
    var r := root[..k] + [last'];
    assert IsSectionBody(cs);
    assert IsSectionBody(cs + [n]);
    forall i | 0 <= i < |r| && IsSectionNode(r[i])
      ensures r[i].section.Section? && IsSectionBody(r[i].section.nodes)
    {
      if i < k {
        assert r[i] == root[i];
      }
    }
    forall i | 0 <= i < |r| && !IsSectionNode(r[i])
      ensures IsLeaf(r[i])
    {
      assert r[i] == root[i];
    }
    forall i, j | 0 <= i < j < |r| && IsSectionNode(r[i])
      ensures IsSectionNode(r[j])
    {
      assert r[i] == root[i];
      if j < k {
        assert r[j] == root[j];
      }
    }
  }

  lemma PlaceAtRootShape(b: Builder, n: Node)
    requires Shaped(b) && IsLeaf(n) && !IsSectionNode(n) && !b.open && FlattenNode(n) == [n]
    ensures Shaped(Place(b, n))
    ensures Flatten(Place(b, n).root) == Flatten(b.root) + [n]
  {
    assert Place(b, n).root == b.root + [n];
    FlattenAppend(b.root, [n]);
    FlattenSingle(n);
    AppendPlainWellFormed(b.root, n);
  }

  /** Before any section, the root holds only plain leaves, and one more keeps it so. */
  lemma AppendPlainWellFormed(root: seq<Node>, n: Node)
    requires WellFormed(root) && (|root| == 0 || !IsSectionNode(root[|root| - 1]))
    requires IsLeaf(n) && !IsSectionNode(n)
    ensures WellFormed(root + [n])
  {
    forall i | 0 <= i < |root| ensures !IsSectionNode(root[i]) && IsLeaf(root[i]) {
      if i < |root| - 1 {
        assert !IsSectionNode(root[|root| - 1]);
      }
    }
    var r := root + [n];
    assert forall i :: 0 <= i < |r| ==> !IsSectionNode(r[i]) && IsLeaf(r[i]);
  }

  lemma {:induction false} AssembleShape(b: Builder, ns: seq<Node>)
    requires Shaped(b) && Consistent(b)
    requires forall k :: 0 <= k < |ns| ==> IsLeaf(ns[k])
    ensures WellFormed(Assemble(b, ns))
    ensures Flatten(Assemble(b, ns)) == Flatten(b.root) + ns
    decreases |ns|
  {
    if |ns| > 0 {
      PlaceShape(b, ns[0]);
      AssembleShape(Place(b, ns[0]), ns[1..]);
      assert [ns[0]] + ns[1..] == ns;
    }
  }

  /** `parseSshConfig`: every line of the text, in order, becomes a node of
      the tree (pre-order), and the tree has the shape the section rule gives. */
  function Parse(s: string): (root: seq<Node>)
    ensures WellFormed(root)
    ensures Flatten(root) == Lines(s, 0)
  {
    var b := Builder([], false);
    AssembleShape(b, Lines(s, 0));
    assert Flatten([]) == [];
    Assemble(b, Lines(s, 0))
  }
}
