/** The structural edits of `SshConfig`: `find`, `removeHost` and `add`. */
module Edits {
  import opened Wrappers
  import opened Ast
  import opened Serializer

  // ---------------------------------------------------------------- find

  function FindFrom(root: seq<Node>, host: string, i: nat): (r: Option<nat>)
    requires i <= |root|
    ensures r.Some? ==>
              && i <= r.value < |root| && IsHostEntry(root[r.value], host)
              && forall j :: i <= j < r.value ==> !IsHostEntry(root[j], host)
    ensures r.None? <==> forall j :: i <= j < |root| ==> !IsHostEntry(root[j], host)
    decreases |root| - i
  {
    if i == |root| then None
    else if IsHostEntry(root[i], host) then Some(i)
    else FindFrom(root, host, i + 1)
  }

  /** `find`: the position of the first root node that is a `Host` directive
      with exactly the value `host`. Sections are not searched. */
  function FindIndex(root: seq<Node>, host: string): (r: Option<nat>)
    ensures r.Some? ==>
              && r.value < |root| && IsHostEntry(root[r.value], host)
              && forall j :: 0 <= j < r.value ==> !IsHostEntry(root[j], host)
    ensures r.None? <==> forall j :: 0 <= j < |root| ==> !IsHostEntry(root[j], host)
  {
    FindFrom(root, host, 0)
  }

  /** `find`, returning the node itself. */
  function Find(root: seq<Node>, host: string): (r: Option<Node>)
    ensures r.Some? <==> exists j :: 0 <= j < |root| && IsHostEntry(root[j], host)
    ensures r.Some? ==>
              exists j :: 0 <= j < |root| && root[j] == r.value && IsHostEntry(r.value, host)
                          && forall k :: 0 <= k < j ==> !IsHostEntry(root[k], host)
  {
    match FindIndex(root, host)
    case Some(i) => Some(root[i])
    case None => None
  }

  // ---------------------------------------------------------- removeHost

  /** `removeHost`: drops the node `find` returns, and with it the section it
      owns; every other root node stays, in order. An absent host changes nothing. */
  function RemoveHost(root: seq<Node>, host: string): (r: seq<Node>)
    ensures FindIndex(root, host).None? ==> r == root
    ensures FindIndex(root, host).Some? ==>
              var i := FindIndex(root, host).value;
              && |r| == |root| - 1
              && (forall j :: 0 <= j < i ==> r[j] == root[j])
              && (forall j :: i <= j < |r| ==> r[j] == root[j + 1])
  {
    match FindIndex(root, host)
    case Some(i) => root[..i] + root[i + 1..]
    case None => root
  }

  /** The number of root `Host` directives with value `host`. */
  function HostCount(root: seq<Node>, host: string): nat {
    if |root| == 0 then 0
    else (if IsHostEntry(root[0], host) then 1 else 0) + HostCount(root[1..], host)
  }

  lemma {:induction false} HostCountAppend(a: seq<Node>, b: seq<Node>, host: string)
    ensures HostCount(a + b, host) == HostCount(a, host) + HostCount(b, host)
  {
    if |a| == 0 {
      assert a + b == b;
    } else {
      assert (a + b)[1..] == a[1..] + b;
      HostCountAppend(a[1..], b, host);
    }
  }

  /** No entry for a host exactly when `find` finds none. */
  lemma {:induction false} HostCountZero(a: seq<Node>, host: string)
    ensures HostCount(a, host) == 0 <==> FindIndex(a, host).None?
  {
    if |a| > 0 {
      HostCountZero(a[1..], host);
      assert FindIndex(a[1..], host).None? <==> forall j :: 1 <= j < |a| ==> !IsHostEntry(a[j], host) by {
        forall j | 1 <= j < |a| ensures a[1..][j - 1] == a[j] { }
      }
    }
  }

  /** `removeHost` removes exactly one matching entry when there is one:
      the count of `Host` entries for that name drops by one, and the text
      that disappears is exactly the removed line and its section. */
  lemma RemoveHostRemovesOne(root: seq<Node>, host: string)
    requires FindIndex(root, host).Some?
    ensures HostCount(RemoveHost(root, host), host) == HostCount(root, host) - 1
    ensures
      var i := FindIndex(root, host).value;
      var r := RemoveHost(root, host);
      Stringify(root) == Stringify(r[..i]) + StringifyNode(root[i]) + Stringify(r[i..])
  {
    var i := FindIndex(root, host).value;
    var r := RemoveHost(root, host);
    assert root == root[..i] + [root[i]] + root[i + 1..];
    assert r[..i] == root[..i] && r[i..] == root[i + 1..];
    HostCountAppend(root[..i] + [root[i]], root[i + 1..], host);
    HostCountAppend(root[..i], [root[i]], host);
    HostCountAppend(root[..i], root[i + 1..], host);
    assert HostCount([root[i]], host) == 1;
    StringifyAppend(root[..i] + [root[i]], root[i + 1..]);
    StringifyAppend(root[..i], [root[i]]);
    assert Stringify([root[i]]) == StringifyNode(root[i]);
  }

  /** After removing the only entry for a host, `find` no longer sees it. */
  lemma RemoveOnlyHost(root: seq<Node>, host: string)
    requires HostCount(root, host) == 1
    ensures FindIndex(RemoveHost(root, host), host).None?
  {
    HostCountZero(root, host);
    RemoveHostRemovesOne(root, host);
    HostCountZero(RemoveHost(root, host), host);
  }

  // ----------------------------------------------------------------- add

  /** The indentation `add` falls back to when no section line has one. */
  const DefaultIndent: string := "  "

  /** The first non-empty `before` among a section's nodes. */
  function FirstIndent(ns: seq<Node>): (r: Option<string>)
    ensures r.None? <==> forall j :: 0 <= j < |ns| ==> ns[j].before == ""
    ensures r.Some? ==>
              && r.value != ""
              && exists j :: 0 <= j < |ns| && ns[j].before == r.value
                             && forall k :: 0 <= k < j ==> ns[k].before == ""
  {
    if |ns| == 0 then None
    else if ns[0].before != "" then Some(ns[0].before)
    else
      var r := FirstIndent(ns[1..]);
      assert r.Some? ==> exists j :: 0 <= j < |ns| - 1 && ns[1..][j].before == r.value
                                     && forall k :: 0 <= k < j ==> ns[1..][k].before == "";
      r
  }

  /** A root section directive whose section has an indented node. */
  predicate SetsIndent(n: Node) {
    IsSectionNode(n) && FirstIndent(Children(n)).Some?
  }

  function IndentFrom(root: seq<Node>, i: nat, indent: string): (r: string)
    requires i <= |root|
    ensures (forall j :: i <= j < |root| ==> !SetsIndent(root[j])) ==> r == indent
    ensures forall j :: i <= j < |root| && SetsIndent(root[j])
                        && (forall k :: j < k < |root| ==> !SetsIndent(root[k])) ==>
                          r == FirstIndent(Children(root[j])).value
    decreases |root| - i
  {
    if i == |root| then indent
    else
      var next := if SetsIndent(root[i]) then FirstIndent(Children(root[i])).value else indent;
      var r := IndentFrom(root, i + 1, next);
      assert (forall k :: i < k < |root| ==> !SetsIndent(root[k])) ==> r == next;
      r
  }

  /** The indentation `add` gives new section lines: the first non-empty
      `before` in the section of the LAST root section directive that has
      one (each later section overrides the earlier ones), else two spaces. */
  function DiscoverIndent(root: seq<Node>): (r: string)
    ensures (forall j :: 0 <= j < |root| ==> !SetsIndent(root[j])) ==> r == DefaultIndent
    ensures forall j :: 0 <= j < |root| && SetsIndent(root[j])
                        && (forall k :: j < k < |root| ==> !SetsIndent(root[k])) ==>
                          r == FirstIndent(Children(root[j])).value
  {
    IndentFrom(root, 0, DefaultIndent)
  }

  /** A node whose value holds a `*` or `?` wildcard. */
  predicate HasWildcard(n: Node) {
    n.Directive? && ('*' in n.value || '?' in n.value)
  }

  /** Where `add` inserts a new section: before the first wildcard root node. */
  function WildcardIndex(root: seq<Node>): (k: nat)
    ensures k <= |root|
    ensures forall j :: 0 <= j < k ==> !HasWildcard(root[j])
    ensures k == |root| || HasWildcard(root[k])
  {
    if |root| == 0 || HasWildcard(root[0]) then 0 else 1 + WildcardIndex(root[1..])
  }

  /** The directive `add` builds for one key/value pair. */
  function NewLine(key: string, value: string, before: string): Node {
    Directive(before, key, " ", value, false, "\n", NoSection)
  }

  /** Where `add` is putting plain directives: the root, or the section of
      the root node at `index`. */
  datatype Target = AtRoot | InSection(index: nat)

  datatype AddState = AddState(root: seq<Node>, target: Target)

  predicate ValidState(st: AddState) {
    st.target.InSection? ==>
      && st.target.index < |st.root|
      && st.root[st.target.index].Directive?
      && st.root[st.target.index].section.Section?
  }

  /** The nodes of the current target. */
  function TargetNodes(st: AddState): seq<Node>
    requires ValidState(st)
  {
    match st.target
    case AtRoot => st.root
    case InSection(i) => st.root[i].section.nodes
  }

  /** One pair of `add`. A section key goes to the root, before the first
      wildcard node, with a fresh section that becomes the target; any other
      key is appended to the target with the discovered indentation. */
  function AddPair(st: AddState, key: string, value: string, indent: string): (r: AddState)
    requires ValidState(st)
    ensures ValidState(r)
    ensures IsSectionKey(key) ==>
              var k := WildcardIndex(st.root);
              && r.target == InSection(k)
              && |r.root| == |st.root| + 1
              && r.root[k] == NewLine(key, value, "").(section := Section([]))
              && (forall j :: 0 <= j < k ==> r.root[j] == st.root[j])
              && (forall j :: k < j < |r.root| ==> r.root[j] == st.root[j - 1])
    ensures !IsSectionKey(key) && st.target.AtRoot? ==>
              r.target == AtRoot && r.root == st.root + [NewLine(key, value, indent)]
    ensures !IsSectionKey(key) && st.target.InSection? ==>
              var i := st.target.index;
              && r.target == st.target
              && |r.root| == |st.root|
              && (forall j :: 0 <= j < |r.root| && j != i ==> r.root[j] == st.root[j])
              && Strip(r.root[i]) == Strip(st.root[i])
              && TargetNodes(r) == TargetNodes(st) + [NewLine(key, value, indent)]
  {
    if IsSectionKey(key) then
      var k := WildcardIndex(st.root);
      var node := NewLine(key, value, "").(section := Section([]));
      AddState(st.root[..k] + [node] + st.root[k..], InSection(k))
    else
      var node := NewLine(key, value, indent);
      match st.target
      case AtRoot => AddState(st.root + [node], AtRoot)
      case InSection(i) =>
        var owner := st.root[i];
        AddState(st.root[i := owner.(section := Section(owner.section.nodes + [node]))], st.target)
  }

  /** The loop of `add` over its pairs, in order. */
  function AddAll(st: AddState, opts: seq<(string, string)>, indent: string): (r: AddState)
    requires ValidState(st)
    ensures ValidState(r)
    decreases |opts|
  {
    if |opts| == 0 then st
    else AddAll(AddPair(st, opts[0].0, opts[0].1, indent), opts[1..], indent)
  }

  /** Where the final line break goes: the last node of the final target. */
  function LastIndex(st: AddState): nat
    requires ValidState(st) && |TargetNodes(st)| > 0
  {
    match st.target
    case AtRoot => |st.root| - 1
    case InSection(i) => i
  }

  /** The last step of `add`: one more line break on the `after` of the last
      node of the final target, which ends the new block with a blank line. */
  function EndBlock(st: AddState): (r: AddState)
    requires ValidState(st) && |TargetNodes(st)| > 0
    ensures ValidState(r) && r.target == st.target && |r.root| == |st.root|
    ensures forall j :: 0 <= j < |r.root| && j != LastIndex(st) ==> r.root[j] == st.root[j]
    ensures |TargetNodes(r)| == |TargetNodes(st)|
    ensures var n := |TargetNodes(st)| - 1;
              && TargetNodes(r)[..n] == TargetNodes(st)[..n]
              && TargetNodes(r)[n] == AppendAfter(TargetNodes(st)[n], "\n")
    ensures st.target.InSection? ==> Strip(r.root[LastIndex(st)]) == Strip(st.root[LastIndex(st)])
  {
    var ns := TargetNodes(st);
    var n := |ns| - 1;
    var ns' := ns[n := AppendAfter(ns[n], "\n")];
    match st.target
    case AtRoot => AddState(ns', AtRoot)
    case InSection(i) => AddState(st.root[i := st.root[i].(section := Section(ns'))], st.target)
  }

  /** Whether the pairs contain a section key. */
  predicate HasSectionKey(opts: seq<(string, string)>) {
    exists j :: 0 <= j < |opts| && IsSectionKey(opts[j].0)
  }

  /** When `add` is defined: its last step indexes the last node of the
      final target, so that target must not be empty. It is the last new
      section when a section key occurs (non-empty when a plain pair follows
      the last section key), and the root otherwise. */
  predicate AddDefined(root: seq<Node>, opts: seq<(string, string)>) {
    if HasSectionKey(opts) then !IsSectionKey(opts[|opts| - 1].0)
    else |root| + |opts| > 0
  }

  /** How many new nodes `add` puts at the root: every section key, and the
      plain pairs that come before the first section key. */
  function RootArrivals(opts: seq<(string, string)>): nat {
    if |opts| == 0 then 0
    else if IsSectionKey(opts[0].0) then 1 + SectionKeyCount(opts[1..])
    else 1 + RootArrivals(opts[1..])
  }

  function SectionKeyCount(opts: seq<(string, string)>): nat {
    if |opts| == 0 then 0
    else (if IsSectionKey(opts[0].0) then 1 else 0) + SectionKeyCount(opts[1..])
  }

  lemma {:induction false} AddAllTarget(st: AddState, opts: seq<(string, string)>, indent: string)
    requires ValidState(st)
    ensures var r := AddAll(st, opts, indent);
      && (HasSectionKey(opts) || st.target.InSection? ==> r.target.InSection?)
      && (!HasSectionKey(opts) ==>
            r.target == st.target && |TargetNodes(r)| == |TargetNodes(st)| + |opts|)
      && (HasSectionKey(opts) && !IsSectionKey(opts[|opts| - 1].0) ==> |TargetNodes(r)| > 0)
    decreases |opts|
  {
    if |opts| > 0 {
      var st' := AddPair(st, opts[0].0, opts[0].1, indent);
      var rest := opts[1..];
      AddAllTarget(st', rest, indent);
      assert AddAll(st, opts, indent) == AddAll(st', rest, indent);
      assert HasSectionKey(rest) ==> HasSectionKey(opts) by {
        if HasSectionKey(rest) {
          var j :| 0 <= j < |rest| && IsSectionKey(rest[j].0);
          assert opts[j + 1] == rest[j];
        }
      }
      assert !HasSectionKey(opts) ==> !HasSectionKey(rest) && !IsSectionKey(opts[0].0) by {
        if !HasSectionKey(opts) {
          forall j | 0 <= j < |rest| ensures !IsSectionKey(rest[j].0) {
            assert opts[j + 1] == rest[j];
          }
          assert opts[0] == opts[0];
        }
      }
      if HasSectionKey(opts) && !HasSectionKey(rest) {
        forall j | 1 <= j < |opts| ensures !IsSectionKey(opts[j].0) {
          assert opts[j] == rest[j - 1];
        }
        assert IsSectionKey(opts[0].0);
      }
      if |rest| > 0 {
        assert rest[|rest| - 1] == opts[|opts| - 1];
      }
    }
  }

  lemma {:induction false} AddAllCount(st: AddState, opts: seq<(string, string)>, indent: string)
    requires ValidState(st)
    ensures |AddAll(st, opts, indent).root| ==
              |st.root| + if st.target.AtRoot? then RootArrivals(opts) else SectionKeyCount(opts)
    decreases |opts|
  {
    if |opts| > 0 {
      AddAllCount(AddPair(st, opts[0].0, opts[0].1, indent), opts[1..], indent);
    }
  }

  /** `f` maps every node of `a` to an equal node of `b`, in increasing
      order: `a` survives inside `b` unchanged and in the same order. */
  predicate IsEmbedding(a: seq<Node>, b: seq<Node>, f: seq<nat>) {
    && |f| == |a|
    && (forall j :: 0 <= j < |f| ==> f[j] < |b| && b[f[j]] == a[j])
    && (forall j, k :: 0 <= j < k < |f| ==> f[j] < f[k])
  }

  lemma AddPairEmbeds(orig: seq<Node>, st: AddState, key: string, value: string, indent: string,
                      f: seq<nat>) returns (f': seq<nat>)
    requires ValidState(st) && IsEmbedding(orig, st.root, f)
    requires st.target.InSection? ==> st.target.index !in f
    ensures var r := AddPair(st, key, value, indent);
      && IsEmbedding(orig, r.root, f')
      && (r.target.InSection? ==> r.target.index !in f')
    ensures !IsSectionKey(key) ==> f' == f
  {
    var r := AddPair(st, key, value, indent);
    if IsSectionKey(key) {
      var k := WildcardIndex(st.root);
      f' := seq(|f|, j requires 0 <= j < |f| => if f[j] < k then f[j] else f[j] + 1);
      forall j | 0 <= j < |f'| ensures f'[j] < |r.root| && r.root[f'[j]] == orig[j] {
        assert st.root[f[j]] == orig[j];
      }
    } else {
      f' := f;
      if st.target.InSection? {
        forall j | 0 <= j < |f| ensures r.root[f[j]] == orig[j] {
          assert f[j] != st.target.index;
        }
      }
    }
  }

  lemma {:induction false} AddAllEmbeds(orig: seq<Node>, st: AddState, opts: seq<(string, string)>,
                                        indent: string, f: seq<nat>) returns (f': seq<nat>)
    requires ValidState(st) && IsEmbedding(orig, st.root, f)
    requires st.target.InSection? ==> st.target.index !in f
    ensures var r := AddAll(st, opts, indent);
      && IsEmbedding(orig, r.root, f')
      && (r.target.InSection? ==> r.target.index !in f')
    ensures !HasSectionKey(opts) ==> f' == f
    decreases |opts|
  {
    if |opts| == 0 {
      f' := f;
    } else {
      var st' := AddPair(st, opts[0].0, opts[0].1, indent);
      var g := AddPairEmbeds(orig, st, opts[0].0, opts[0].1, indent, f);
      f' := AddAllEmbeds(orig, st', opts[1..], indent, g);
      if !HasSectionKey(opts) {
        assert !IsSectionKey(opts[0].0);
        assert !HasSectionKey(opts[1..]) by {
          forall j | 0 <= j < |opts[1..]| ensures !IsSectionKey(opts[1..][j].0) {
            assert opts[1..][j] == opts[j + 1];
          }
        }
      }
    }
  }

  /** `add`: builds a directive for every pair, in order, then ends the last
      block with a blank line. New root nodes are the section keys and the
      plain pairs before the first of them; every pre-existing root node is
      kept unchanged and in order (when there is at least one pair). */
  function Add(root: seq<Node>, opts: seq<(string, string)>): (r: seq<Node>)
    requires AddDefined(root, opts)
    ensures |r| == |root| + RootArrivals(opts)
    ensures |opts| > 0 ==> exists f :: IsEmbedding(root, r, f)
  {
    AddFacts(root, opts);
    EndBlock(AddAll(AddState(root, AtRoot), opts, DiscoverIndent(root))).root
  }

  lemma AddFacts(root: seq<Node>, opts: seq<(string, string)>)
    requires AddDefined(root, opts)
    ensures
      var st := AddAll(AddState(root, AtRoot), opts, DiscoverIndent(root));
      && |TargetNodes(st)| > 0
      && |EndBlock(st).root| == |root| + RootArrivals(opts)
      && (|opts| > 0 ==> exists f :: IsEmbedding(root, EndBlock(st).root, f))
  {
    var indent := DiscoverIndent(root);
    var st0 := AddState(root, AtRoot);
    AddAllTarget(st0, opts, indent);
    AddAllCount(st0, opts, indent);
    if |opts| > 0 {
      AddKeepsRoot(root, opts);
    }
  }

  lemma AddKeepsRoot(root: seq<Node>, opts: seq<(string, string)>)
    requires AddDefined(root, opts) && |opts| > 0
    ensures
      var indent := DiscoverIndent(root);
      var st := AddAll(AddState(root, AtRoot), opts, indent);
      |TargetNodes(st)| > 0 && exists f :: IsEmbedding(root, EndBlock(st).root, f)
  {
    var st := AddAll(AddState(root, AtRoot), opts, DiscoverIndent(root));
    var f := AddAllEmbedsRoot(root, opts, DiscoverIndent(root));
    LastIndexNotEmbedded(root, st, f);
    EndBlockEmbeds(root, st, f);
    assert IsEmbedding(root, EndBlock(st).root, f);
  }

  /** After all pairs the old root is embedded, the final target is non-empty,
      and it lies outside the embedding: a new section, or the root grown. */
  lemma AddAllEmbedsRoot(root: seq<Node>, opts: seq<(string, string)>, indent: string)
    returns (f: seq<nat>)
    requires AddDefined(root, opts) && |opts| > 0
    ensures var st := AddAll(AddState(root, AtRoot), opts, indent);
      && |TargetNodes(st)| > 0
      && IsEmbedding(root, st.root, f)
      && (st.target.InSection? ==> st.target.index !in f)
      && (st.target.AtRoot? ==> |st.root| > |root| && f == seq(|root|, j requires 0 <= j < |root| => j))
  {
    var st0 := AddState(root, AtRoot);
    AddAllTarget(st0, opts, indent);
    var f0 := seq(|root|, j requires 0 <= j < |root| => j);
    f := AddAllEmbeds(root, st0, opts, indent, f0);
  }

  lemma LastIndexNotEmbedded(root: seq<Node>, st: AddState, f: seq<nat>)
    requires ValidState(st) && |TargetNodes(st)| > 0
    requires st.target.InSection? ==> st.target.index !in f
    requires st.target.AtRoot? ==> |st.root| > |root| && f == seq(|root|, j requires 0 <= j < |root| => j)
    ensures LastIndex(st) !in f
  {
    if st.target.AtRoot? {
      assert forall j :: 0 <= j < |f| ==> f[j] < |root|;
    }
  }

  /** The final line feed touches no node of the embedded original root. */
  lemma EndBlockEmbeds(orig: seq<Node>, st: AddState, f: seq<nat>)
    requires ValidState(st) && |TargetNodes(st)| > 0
    requires IsEmbedding(orig, st.root, f) && LastIndex(st) !in f
    ensures IsEmbedding(orig, EndBlock(st).root, f)
  {
    var r := EndBlock(st);
    forall j | 0 <= j < |f| ensures r.root[f[j]] == orig[j] {
      assert f[j] != LastIndex(st);
    }
  }

  /** The directives `add` builds for plain pairs, in order. */
  function NewLines(pairs: seq<(string, string)>, indent: string): seq<Node> {
    seq(|pairs|, j requires 0 <= j < |pairs| => NewLine(pairs[j].0, pairs[j].1, indent))
  }

  /** A block of new directives whose last one ends with a blank line. */
  function Block(pairs: seq<(string, string)>, indent: string): seq<Node>
    requires |pairs| > 0
  {
    var ns := NewLines(pairs, indent);
    ns[|ns| - 1 := AppendAfter(ns[|ns| - 1], "\n")]
  }

  lemma NewLinesCons(pairs: seq<(string, string)>, indent: string)
    requires |pairs| > 0
    ensures NewLines(pairs, indent) == [NewLine(pairs[0].0, pairs[0].1, indent)] + NewLines(pairs[1..], indent)
  {
  }

  lemma {:induction false} PlainPairsInSection(st: AddState, pairs: seq<(string, string)>, indent: string)
    requires ValidState(st) && st.target.InSection? && !HasSectionKey(pairs)
    ensures
      var r := AddAll(st, pairs, indent);
      var i := st.target.index;
      && r.target == st.target
      && r.root == st.root[i := st.root[i].(section := Section(TargetNodes(st) + NewLines(pairs, indent)))]
    decreases |pairs|
  {
    var i := st.target.index;
    if |pairs| == 0 {
      assert TargetNodes(st) + NewLines(pairs, indent) == TargetNodes(st);
      assert st.root[i].(section := Section(TargetNodes(st))) == st.root[i];
    } else {
      var st' := AddPair(st, pairs[0].0, pairs[0].1, indent);
      var rest := pairs[1..];
      assert !IsSectionKey(pairs[0].0);
      assert !HasSectionKey(rest) by {
        forall j | 0 <= j < |rest| ensures !IsSectionKey(rest[j].0) {
          assert rest[j] == pairs[j + 1];
        }
      }
      PlainPairsInSection(st', rest, indent);
      var nl := NewLine(pairs[0].0, pairs[0].1, indent);
      NewLinesCons(pairs, indent);
      assert TargetNodes(st') == TargetNodes(st) + [nl];
      var nodes := TargetNodes(st) + NewLines(pairs, indent);
      assert TargetNodes(st') + NewLines(rest, indent) == nodes;
      assert st'.root[i].(section := Section(nodes)) == st.root[i].(section := Section(nodes));
      assert forall j :: 0 <= j < |st.root| && j != i ==> st'.root[j] == st.root[j];
      assert |st'.root| == |st.root|;
      assert st'.root[i := st.root[i].(section := Section(nodes))] == st.root[i := st.root[i].(section := Section(nodes))];
    }
  }

  lemma EndBlockInSection(st: AddState)
    requires ValidState(st) && st.target.InSection? && |TargetNodes(st)| > 0
    ensures
      var ns := TargetNodes(st);
      var n := |ns| - 1;
      var i := st.target.index;
      EndBlock(st).root == st.root[i := st.root[i].(section := Section(ns[n := AppendAfter(ns[n], "\n")]))]
  {
  }

  /** The `Host` node `add` creates, owning `nodes`. */
  function HostLine(host: string, nodes: seq<Node>): Node {
    Directive("", "Host", " ", host, false, "\n", Section(nodes))
  }

  /** The usual use of `add`: a `Host` line with plain directives under it.
      The new `Host` node lands before the first wildcard root node (or at
      the end) and owns exactly the new directives, indented as discovered,
      the last one followed by a blank line; the rest of the root is untouched. */
  lemma AddHostBlock(root: seq<Node>, host: string, pairs: seq<(string, string)>)
    requires |pairs| > 0 && !HasSectionKey(pairs)
    ensures AddDefined(root, [("Host", host)] + pairs)
    ensures
      var k := WildcardIndex(root);
      var entry := Directive("", "Host", " ", host, false, "\n",
                             Section(Block(pairs, DiscoverIndent(root))));
      Add(root, [("Host", host)] + pairs) == root[..k] + [entry] + root[k..]
  {
    var opts := [("Host", host)] + pairs;
    assert opts[|opts| - 1] == pairs[|pairs| - 1];
    assert IsSectionKey(opts[0].0);
    assert HasSectionKey(opts);
    assert AddDefined(root, opts);
    var indent := DiscoverIndent(root);
    var k := WildcardIndex(root);
    var r1 := root[..k] + [HostLine(host, [])] + root[k..];
    AddHostStart(root, host, pairs, indent);
    AddHostFinish(r1, k, host, pairs, indent);
    var stA := AddAll(AddState(root, AtRoot), opts, indent);
    var stB := AddAll(AddState(r1, InSection(k)), pairs, indent);
    assert stA == stB;
    var entry := HostLine(host, Block(pairs, indent));
    assert EndBlock(stB).root == r1[k := entry];
    assert Add(root, opts) == EndBlock(stA).root;
    ReplaceInserted(root, k, HostLine(host, []), entry);
  }

  lemma ReplaceInserted(a: seq<Node>, k: nat, x: Node, y: Node)
    requires k <= |a|
    ensures (a[..k] + [x] + a[k..])[k := y] == a[..k] + [y] + a[k..]
  {
    var l, r := a[..k] + [x] + a[k..], a[..k] + [y] + a[k..];
    assert |l[k := y]| == |r|;
    forall j | 0 <= j < |r| ensures l[k := y][j] == r[j] {
      if j < k {
        assert l[j] == a[j] == r[j];
      } else if j > k {
        assert l[j] == a[j - 1] == r[j];
      }
    }
  }

  /** The `Host` pair of a host block: the new node goes in before the first
      wildcard node and its empty section becomes the target. */
  lemma AddHostStart(root: seq<Node>, host: string, pairs: seq<(string, string)>, indent: string)
    ensures
      var k := WildcardIndex(root);
      AddAll(AddState(root, AtRoot), [("Host", host)] + pairs, indent) ==
        AddAll(AddState(root[..k] + [HostLine(host, [])] + root[k..], InSection(k)), pairs, indent)
  {
    var opts := [("Host", host)] + pairs;
    assert opts[0] == ("Host", host) && opts[1..] == pairs;
    assert IsSectionKey("Host");
    assert NewLine("Host", host, "") == Directive("", "Host", " ", host, false, "\n", NoSection);
  }

  /** The plain pairs of a host block fill the new section, and the final
      line feed goes on the last of them. */
  lemma AddHostFinish(r1: seq<Node>, k: nat, host: string, pairs: seq<(string, string)>, indent: string)
    requires k < |r1| && r1[k] == HostLine(host, [])
    requires |pairs| > 0 && !HasSectionKey(pairs)
    ensures
      var st := AddAll(AddState(r1, InSection(k)), pairs, indent);
      && ValidState(st) && |TargetNodes(st)| > 0
      && EndBlock(st).root == r1[k := HostLine(host, Block(pairs, indent))]
  {
    var st1 := AddState(r1, InSection(k));
    assert TargetNodes(st1) == [];
    PlainPairsInSection(st1, pairs, indent);
    var st2 := AddAll(st1, pairs, indent);
    var ns := NewLines(pairs, indent);
    assert [] + ns == ns;
    assert st2.root == r1[k := HostLine(host, ns)];
    assert TargetNodes(st2) == ns;
    EndBlockInSection(st2);
  }

  /** Inserting a `Host` entry into a root that has none for that host:
      `find` locates it and `removeHost` takes exactly it out again. */
  lemma InsertThenRemove(root: seq<Node>, k: nat, entry: Node, host: string)
    requires k <= |root| && IsHostEntry(entry, host)
    requires FindIndex(root, host).None?
    ensures FindIndex(root[..k] + [entry] + root[k..], host) == Some(k)
    ensures RemoveHost(root[..k] + [entry] + root[k..], host) == root
  {
    var r := root[..k] + [entry] + root[k..];
    assert r[k] == entry;
    forall j | 0 <= j < k ensures !IsHostEntry(r[j], host) {
      assert r[j] == root[j];
    }
    assert r[..k] + r[k + 1..] == root;
  }

  /** `removeHost` undoes adding a `Host` block for a host the tree did not
      have, and `find` locates the added block in between. */
  lemma AddThenRemoveHost(root: seq<Node>, host: string, pairs: seq<(string, string)>)
    requires |pairs| > 0 && !HasSectionKey(pairs)
    requires FindIndex(root, host).None?
    ensures AddDefined(root, [("Host", host)] + pairs)
    ensures FindIndex(Add(root, [("Host", host)] + pairs), host) == Some(WildcardIndex(root))
    ensures RemoveHost(Add(root, [("Host", host)] + pairs), host) == root
  {
    AddHostBlock(root, host, pairs);
    var k := WildcardIndex(root);
    var entry := Directive("", "Host", " ", host, false, "\n",
                           Section(Block(pairs, DiscoverIndent(root))));
    InsertThenRemove(root, k, entry, host);
  }
}
