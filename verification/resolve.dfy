/** `Compute`: the settings that apply to one host. Root directives and the
    direct children of every `Host` section whose pattern list accepts the
    host are merged in document order; `IdentityFile` collects every value,
    any other key keeps the first one. The result exists only when some root
    `Host` line names the host exactly. */
module Resolve {
  import opened Wrappers
  import opened Ast
  import opened Edits
  import opened Glob

  const IdentityFileKey := "IdentityFile"

  /** A resolved value: the list kept for `IdentityFile`, a single string otherwise. */
  datatype Setting = Single(value: string) | Many(values: seq<string>)

  type Settings = map<string, Setting>

  /** The `IdentityFile` list collected so far. */
  function Collected(m: Settings, name: string): seq<string> {
    if name in m && m[name].Many? then m[name].values else []
  }

  /** `setProperty`: `IdentityFile` appends, any other key is written only once. */
  function SetProperty(m: Settings, name: string, value: string): (r: Settings)
    ensures r.Keys == m.Keys + {name}
    ensures forall k :: k in m && k != name ==> r[k] == m[k]
    ensures name != IdentityFileKey && name in m ==> r == m
    ensures name != IdentityFileKey && name !in m ==> r[name] == Single(value)
    ensures name == IdentityFileKey ==> r[name] == Many(Collected(m, name) + [value])
  {
    if name == IdentityFileKey then m[name := Many(Collected(m, name) + [value])]
    else if name in m then m
    else m[name := Single(value)]
  }

  /** `setProperty` applied to each pair in turn. */
  function MergeInto(m: Settings, ps: seq<(string, string)>): Settings
    decreases |ps|
  {
    if |ps| == 0 then m else MergeInto(SetProperty(m, ps[0].0, ps[0].1), ps[1..])
  }

  function Merge(ps: seq<(string, string)>): Settings {
    MergeInto(map[], ps)
  }

  lemma {:induction false} MergeIntoAppend(m: Settings, a: seq<(string, string)>, b: seq<(string, string)>)
    ensures MergeInto(m, a + b) == MergeInto(MergeInto(m, a), b)
    decreases |a|
  {
    if |a| == 0 {
      assert a + b == b;
    } else {
      assert (a + b)[0] == a[0] && (a + b)[1..] == a[1..] + b;
      MergeIntoAppend(SetProperty(m, a[0].0, a[0].1), a[1..], b);
    }
  }

  /** The first value given for `key`, if any. */
  function FirstValue(ps: seq<(string, string)>, key: string): (r: Option<string>)
    ensures r.None? <==> forall i :: 0 <= i < |ps| ==> ps[i].0 != key
    ensures r.Some? ==> exists i :: 0 <= i < |ps| && ps[i] == (key, r.value) && forall j :: 0 <= j < i ==> ps[j].0 != key
  {
    if |ps| == 0 then None
    else if ps[0].0 == key then Some(ps[0].1)
    else
      var r := FirstValue(ps[1..], key);
      assert forall i :: 1 <= i < |ps| ==> ps[1..][i - 1] == ps[i];
      r
  }

  /** Every value given for `key`, in order. */
  function AllValues(ps: seq<(string, string)>, key: string): (r: seq<string>)
    ensures |r| <= |ps|
    ensures forall v :: v in r <==> (key, v) in ps
    ensures |r| == 0 <==> forall i :: 0 <= i < |ps| ==> ps[i].0 != key
  {
    if |ps| == 0 then []
    else if ps[0].0 == key then [ps[0].1] + AllValues(ps[1..], key)
    else
      assert forall i :: 1 <= i < |ps| ==> ps[1..][i - 1] == ps[i];
      AllValues(ps[1..], key)
  }

  /** The first value for `key` once one more pair is seen. */
  function AfterPair(prev: Option<string>, p: (string, string), key: string): Option<string> {
    if prev.Some? then prev else if p.0 == key then Some(p.1) else None
  }

  lemma {:induction false} FirstValueAppend(ps: seq<(string, string)>, p: (string, string), key: string)
    ensures FirstValue(ps + [p], key) == AfterPair(FirstValue(ps, key), p, key)
  {
    if |ps| > 0 {
      assert (ps + [p])[1..] == ps[1..] + [p];
      FirstValueAppend(ps[1..], p, key);
    } else {
      assert ps + [p] == [p];
    }
  }

  lemma {:induction false} AllValuesAppend(ps: seq<(string, string)>, p: (string, string), key: string)
    ensures AllValues(ps + [p], key) == AllValues(ps, key) + (if p.0 == key then [p.1] else [])
  {
    if |ps| > 0 {
      assert (ps + [p])[1..] == ps[1..] + [p];
      AllValuesAppend(ps[1..], p, key);
    } else {
      assert ps + [p] == [p];
    }
  }

  /** What merging means: a key is present exactly when some pair gives it;
      `IdentityFile` holds all its values in order, every other key its first value. */
  ghost predicate MergedFrom(m: Settings, ps: seq<(string, string)>) {
    && (forall k :: k in m <==> FirstValue(ps, k).Some?)
    && (forall k :: k in m && k != IdentityFileKey ==> m[k] == Single(FirstValue(ps, k).value))
    && (IdentityFileKey in m ==> m[IdentityFileKey] == Many(AllValues(ps, IdentityFileKey)))
  }

  lemma {:induction false} MergeMeaning(ps: seq<(string, string)>)
    ensures MergedFrom(Merge(ps), ps)
    decreases |ps|
  {
    if |ps| == 0 {
      assert Merge(ps) == map[];
    } else {
      var init := ps[..|ps| - 1];
      var p := ps[|ps| - 1];
      assert ps == init + [p];
      MergeMeaning(init);
      MergeIntoAppend(map[], init, [p]);
      assert [p][1..] == [];
      assert Merge(ps) == SetProperty(Merge(init), p.0, p.1);
      SetPropertyExtends(Merge(init), init, p);
    }
  }

  /** One more `setProperty` call keeps the merge meaning for one more pair. */
  lemma SetPropertyExtends(m: Settings, ps: seq<(string, string)>, p: (string, string))
    requires MergedFrom(m, ps)
    ensures MergedFrom(SetProperty(m, p.0, p.1), ps + [p])
  {
    forall k ensures FirstValue(ps + [p], k) == AfterPair(FirstValue(ps, k), p, k) {
      FirstValueAppend(ps, p, k);
    }
    ExtendSingles(m, ps, p);
    ExtendIdentityFiles(m, ps, p);
  }

  lemma ExtendSingles(m: Settings, ps: seq<(string, string)>, p: (string, string))
    requires MergedFrom(m, ps)
    requires forall k :: FirstValue(ps + [p], k) == AfterPair(FirstValue(ps, k), p, k)
    ensures var r := SetProperty(m, p.0, p.1);
      forall k :: k in r && k != IdentityFileKey ==>
        FirstValue(ps + [p], k).Some? && r[k] == Single(FirstValue(ps + [p], k).value)
  {
  }

  lemma ExtendIdentityFiles(m: Settings, ps: seq<(string, string)>, p: (string, string))
    requires MergedFrom(m, ps)
    ensures var r := SetProperty(m, p.0, p.1);
      IdentityFileKey in r ==> r[IdentityFileKey] == Many(AllValues(ps + [p], IdentityFileKey))
  {
    AllValuesAppend(ps, p, IdentityFileKey);
    if p.0 == IdentityFileKey {
      if IdentityFileKey in m {
        assert Collected(m, IdentityFileKey) == AllValues(ps, IdentityFileKey);
      } else {
        assert FirstValue(ps, IdentityFileKey).None?;
        assert AllValues(ps, IdentityFileKey) == [];
        assert Collected(m, IdentityFileKey) == [];
      }
    } else {
      assert AllValues(ps + [p], IdentityFileKey) == AllValues(ps, IdentityFileKey);
    }
  }

  /** The `(key, value)` pairs of the directives among `cs`, in order. */
  function DirectivePairs(cs: seq<Node>): (r: seq<(string, string)>)
    ensures |r| <= |cs|
    ensures forall c :: c in cs && c.Directive? ==> (c.param, c.value) in r
    ensures forall p :: p in r ==> exists c :: c in cs && c.Directive? && p == (c.param, c.value)
  {
    if |cs| == 0 then []
    else if cs[0].Directive? then [(cs[0].param, cs[0].value)] + DirectivePairs(cs[1..])
    else DirectivePairs(cs[1..])
  }

  /** The pairs one root node contributes for host `q`: nothing for comments
      and `Match`, the `Host` line and its section's directives when the
      pattern list accepts `q`, and the directive itself otherwise. */
  function NodePairs(n: Node, q: string): seq<(string, string)> {
    if !n.Directive? then []
    else if n.param == "Host" then
      if TestGlob(n.value, q) then [("Host", n.value)] + DirectivePairs(Children(n)) else []
    else if n.param == "Match" then []
    else [(n.param, n.value)]
  }

  /** Every pair the walk over the root sets, in document order. */
  function Contributions(root: seq<Node>, q: string): seq<(string, string)>
    decreases |root|
  {
    if |root| == 0 then [] else NodePairs(root[0], q) + Contributions(root[1..], q)
  }

  /** The state of the loop: the settings so far and whether the host was named. */
  datatype Resolution = Resolution(settings: Settings, found: bool)

  /** `setProperty` for every directive child, in order. */
  function SetChildren(m: Settings, cs: seq<Node>): (r: Settings)
    ensures r == MergeInto(m, DirectivePairs(cs))
    decreases |cs|
  {
    if |cs| == 0 then m
    else if cs[0].Directive? then SetChildren(SetProperty(m, cs[0].param, cs[0].value), cs[1..])
    else SetChildren(m, cs[1..])
  }

  /** One pass of the loop body over a root node. */
  function Visit(acc: Resolution, n: Node, q: string): (r: Resolution)
    ensures r.settings == MergeInto(acc.settings, NodePairs(n, q))
    ensures r.found <==> acc.found || IsHostEntry(n, q)
  {
    if !n.Directive? then acc
    else if n.param == "Host" then
      var found := acc.found || n.value == q;
      if TestGlob(n.value, q) then
        var m := SetProperty(acc.settings, "Host", n.value);
        MergeIntoAppend(acc.settings, [("Host", n.value)], DirectivePairs(Children(n)));
        assert [("Host", n.value)][1..] == [];
        Resolution(SetChildren(m, Children(n)), found)
      else
        Resolution(acc.settings, found)
    else if n.param == "Match" then acc
    else
      assert [(n.param, n.value)][1..] == [];
      Resolution(SetProperty(acc.settings, n.param, n.value), acc.found)
  }

  /** The loop over the root nodes. */
  function Walk(acc: Resolution, root: seq<Node>, q: string): (r: Resolution)
    ensures r.settings == MergeInto(acc.settings, Contributions(root, q))
    ensures r.found <==> acc.found || exists i :: 0 <= i < |root| && IsHostEntry(root[i], q)
    decreases |root|
  {
    if |root| == 0 then acc
    else
      var r := Walk(Visit(acc, root[0], q), root[1..], q);
      MergeIntoAppend(acc.settings, NodePairs(root[0], q), Contributions(root[1..], q));
      assert forall i :: 1 <= i < |root| ==> root[1..][i - 1] == root[i];
      r
  }

  /** `Compute`: none unless a root `Host` line names `q` exactly (the same
      line `find` returns); otherwise the merge of every contribution. */
  function Compute(root: seq<Node>, q: string): (r: Option<Settings>)
    ensures r.None? <==> FindIndex(root, q).None?
    ensures r.Some? ==> MergedFrom(r.value, Contributions(root, q))
  {
    var w := Walk(Resolution(map[], false), root, q);
    MergeMeaning(Contributions(root, q));
    if w.found then Some(w.settings) else None
  }

  lemma {:induction false} ContributionsAppend(a: seq<Node>, b: seq<Node>, q: string)
    ensures Contributions(a + b, q) == Contributions(a, q) + Contributions(b, q)
    decreases |a|
  {
    if |a| == 0 {
      assert a + b == b;
    } else {
      assert (a + b)[0] == a[0] && (a + b)[1..] == a[1..] + b;
      ContributionsAppend(a[1..], b, q);
    }
  }

  /** A node that contributes nothing and does not name the host. */
  predicate Inert(n: Node, q: string) {
    || n.Comment?
    || (n.param == "Match")
    || (n.param == "Host" && n.value != q && !TestGlob(n.value, q))
  }

  lemma InertContributesNothing(n: Node, q: string)
    requires Inert(n, q)
    ensures Contributions([n], q) == []
  {
    assert [n][1..] == [];
  }

  /** Inserting nodes that contribute nothing leaves the contributions alone. */
  lemma InsertSilent(root: seq<Node>, i: nat, ns: seq<Node>, q: string)
    requires i <= |root| && Contributions(ns, q) == []
    ensures Contributions(root[..i] + ns + root[i..], q) == Contributions(root, q)
  {
    var a, b := root[..i], root[i..];
    calc {
      Contributions(a + ns + b, q);
      { ContributionsAppend(a + ns, b, q); }
      Contributions(a + ns, q) + Contributions(b, q);
      { ContributionsAppend(a, ns, q); assert Contributions(a, q) + [] == Contributions(a, q); }
      Contributions(a, q) + Contributions(b, q);
      { ContributionsAppend(a, b, q); assert a + b == root; }
      Contributions(root, q);
    }
  }

  lemma InsertInertFind(root: seq<Node>, i: nat, n: Node, q: string)
    requires i <= |root| && Inert(n, q)
    ensures FindIndex(root[..i] + [n] + root[i..], q).None? <==> FindIndex(root, q).None?
  {
    var grown := root[..i] + [n] + root[i..];
    assert !IsHostEntry(n, q);
    assert forall j :: 0 <= j < i ==> grown[j] == root[j];
    assert forall j :: i < j < |grown| ==> grown[j] == root[j - 1];
    if FindIndex(root, q).Some? {
      var j := FindIndex(root, q).value;
      var g := if j < i then j else j + 1;
      assert IsHostEntry(grown[g], q);
    }
    if FindIndex(grown, q).Some? {
      var j := FindIndex(grown, q).value;
      assert j != i;
      var o := if j < i then j else j - 1;
      assert IsHostEntry(root[o], q);
    }
  }

  /** Comments, `Match` blocks and `Host` blocks that neither name nor match
      the host can be inserted anywhere without changing the result. */
  lemma InertNodeIsIgnored(root: seq<Node>, i: nat, n: Node, q: string)
    requires i <= |root| && Inert(n, q)
    ensures Compute(root[..i] + [n] + root[i..], q) == Compute(root, q)
  {
    InertContributesNothing(n, q);
    InsertSilent(root, i, [n], q);
    InsertInertFind(root, i, n, q);
    MapFromMeaning(Compute(root[..i] + [n] + root[i..], q), Compute(root, q), Contributions(root, q));
  }

  /** Merging determines its result: two maps merged from the same pairs are equal. */
  lemma MapFromMeaning(a: Option<Settings>, b: Option<Settings>, ps: seq<(string, string)>)
    requires a.Some? <==> b.Some?
    requires a.Some? ==> MergedFrom(a.value, ps) && MergedFrom(b.value, ps)
    ensures a == b
  {
    if a.Some? {
      assert a.value.Keys == b.value.Keys;
      assert forall k :: k in a.value ==> a.value[k] == b.value[k];
      assert a.value == b.value;
    }
  }

  /** A root directive before every other setting of its key decides it,
      whatever the sections after it say. */
  lemma LeadingDirectiveWins(root: seq<Node>, q: string)
    requires |root| > 0 && root[0].Directive?
    requires root[0].param !in {"Host", "Match", IdentityFileKey}
    requires Compute(root, q).Some?
    ensures Compute(root, q).value[root[0].param] == Single(root[0].value)
  {
    assert Contributions(root, q) == [(root[0].param, root[0].value)] + Contributions(root[1..], q);
  }

  /** `setProperty` as written: when `IdentityFile` is already present the
      list is replaced by the new value alone, and when it is absent the
      append creates a one-element list, so only the last value survives. */
  function SetPropertyAsWritten(m: Settings, name: string, value: string): (r: Settings)
    ensures r.Keys == m.Keys + {name}
    ensures forall k :: k in m && k != name ==> r[k] == m[k]
    ensures name != IdentityFileKey && name in m ==> r == m
    ensures name != IdentityFileKey && name !in m ==> r[name] == Single(value)
    ensures name == IdentityFileKey ==> r[name] == Many([value])
  {
    if name == IdentityFileKey then m[name := Many([value])]
    else if name in m then m
    else m[name := Single(value)]
  }

  function MergeIntoAsWritten(m: Settings, ps: seq<(string, string)>): Settings
    decreases |ps|
  {
    if |ps| == 0 then m else MergeIntoAsWritten(SetPropertyAsWritten(m, ps[0].0, ps[0].1), ps[1..])
  }

  lemma {:induction false} MergeIntoAsWrittenAppend(m: Settings, a: seq<(string, string)>, b: seq<(string, string)>)
    ensures MergeIntoAsWritten(m, a + b) == MergeIntoAsWritten(MergeIntoAsWritten(m, a), b)
    decreases |a|
  {
    if |a| == 0 {
      assert a + b == b;
    } else {
      assert (a + b)[0] == a[0] && (a + b)[1..] == a[1..] + b;
      MergeIntoAsWrittenAppend(SetPropertyAsWritten(m, a[0].0, a[0].1), a[1..], b);
    }
  }

  /** What the as-written merge keeps of `IdentityFile`: the last value given. */
  ghost predicate KeepsLast(m: Settings, ps: seq<(string, string)>) {
    var all := AllValues(ps, IdentityFileKey);
    && (IdentityFileKey in m <==> |all| > 0)
    && (|all| > 0 ==> m[IdentityFileKey] == Many([all[|all| - 1]]))
  }

  lemma AsWrittenStep(m: Settings, ps: seq<(string, string)>, p: (string, string))
    requires KeepsLast(m, ps)
    ensures KeepsLast(SetPropertyAsWritten(m, p.0, p.1), ps + [p])
  {
    AllValuesAppend(ps, p, IdentityFileKey);
  }

  /** As written, the merged `IdentityFile` list holds only the last value given. */
  lemma {:induction false} AsWrittenKeepsOnlyLast(ps: seq<(string, string)>)
    ensures KeepsLast(MergeIntoAsWritten(map[], ps), ps)
    decreases |ps|
  {
    if |ps| > 0 {
      var init := ps[..|ps| - 1];
      var p := ps[|ps| - 1];
      assert ps == init + [p];
      AsWrittenKeepsOnlyLast(init);
      MergeIntoAsWrittenAppend(map[], init, [p]);
      assert [p][1..] == [];
      AsWrittenStep(MergeIntoAsWritten(map[], init), init, p);
    }
  }

  /** Two `IdentityFile` values: as written the first is lost, while the
      merge used by `Compute` keeps both in order. */
  lemma IdentityFileResetExample()
    ensures var ps := [(IdentityFileKey, "a"), (IdentityFileKey, "b")];
      && IdentityFileKey in MergeIntoAsWritten(map[], ps)
      && MergeIntoAsWritten(map[], ps)[IdentityFileKey] == Many(["b"])
      && IdentityFileKey in Merge(ps)
      && Merge(ps)[IdentityFileKey] == Many(["a", "b"])
  {
    var ps := [(IdentityFileKey, "a"), (IdentityFileKey, "b")];
    assert AllValues(ps, IdentityFileKey) == ["a", "b"] by {
      assert ps[1..] == [(IdentityFileKey, "b")];
      assert ps[1..][1..] == [];
    }
    AsWrittenKeepsOnlyLast(ps);
    MergeMeaning(ps);
    assert FirstValue(ps, IdentityFileKey).Some?;
  }
}
