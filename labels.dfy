/**
 * `compute_verbose_labels`: every node gets the full path of names leading to it. The
 * root gets "", a child of the root its own name, and a deeper node its parent's verbose
 * label, ": " and its own name (the parent's verbose label is passed down as a prefix).
 */
module VerboseLabels {
  import opened Wrappers
  import opened Trees

  /** The verbose label a node named `name` gets from the prefix its parent passes down. */
  function VerboseFor(prefix: Option<string>, name: string): (v: string)
    ensures prefix.None? ==> v == ""
    ensures prefix.Some? ==> |v| == |name| + (if prefix.value == "" then 0 else |prefix.value| + 2)
  {
    match prefix
    case None => ""
    case Some(p) => if p == "" then name else p + ": " + name
  }

  /**
   * Below the root a verbose label ends with the node's own name; below a non-empty
   * prefix it starts with that prefix and ": ".
   */
  lemma VerboseForParts(prefix: Option<string>, name: string)
    requires prefix.Some?
    ensures var v := VerboseFor(prefix, name);
      && v[|v| - |name|..] == name
      && (prefix.value != "" ==> v[..|prefix.value| + 2] == prefix.value + ": ")
  {
    var v := VerboseFor(prefix, name);
    if prefix.value != "" {
      assert v == (prefix.value + ": ") + name;
    }
  }

  /** The tree with every verbose label written, starting from `prefix` at the root. */
  function Labelled(t: Tree, prefix: Option<string>): (r: Tree)
    ensures r.name == t.name && r.count == t.count && |r.children| == |t.children|
    ensures r.verbose == VerboseFor(prefix, t.name)
    decreases t
  {
    var v := VerboseFor(prefix, t.name);
    Tree(t.name, t.count, v,
         seq(|t.children|, i requires 0 <= i < |t.children| => Labelled(t.children[i], Some(v))))
  }

  /** The names of a path joined by ": ", as in "Google: female: white". */
  function Join(names: seq<string>): string
    decreases |names|
  {
    if |names| == 0 then ""
    else if |names| == 1 then names[0]
    else names[0] + ": " + Join(names[1..])
  }

  /** Only verbose labels change: names, counts and the shape are kept. */
  lemma {:induction false} LabelledKeepsRest(t: Tree, prefix: Option<string>)
    ensures EraseVerbose(Labelled(t, prefix)) == EraseVerbose(t)
    decreases t
  {
    var v := VerboseFor(prefix, t.name);
    forall i | 0 <= i < |t.children| {
      LabelledKeepsRest(t.children[i], Some(v));
    }
  }

  /** Every verbose label is written: what was there before does not matter. */
  lemma {:induction false} LabelledOverwrites(t: Tree, prefix: Option<string>)
    ensures Labelled(EraseVerbose(t), prefix) == Labelled(t, prefix)
    decreases t
  {
    var v := VerboseFor(prefix, t.name);
    forall i | 0 <= i < |t.children| {
      LabelledOverwrites(t.children[i], Some(v));
    }
  }

  /** Labelling keeps every path, and the names along it. */
  lemma {:induction false} LabelledPaths(t: Tree, prefix: Option<string>, path: seq<nat>)
    requires ValidPath(t, path)
    ensures ValidPath(Labelled(t, prefix), path)
    ensures At(Labelled(t, prefix), path).name == At(t, path).name
    ensures LabelsOnPath(Labelled(t, prefix), path) == LabelsOnPath(t, path)
    decreases |path|
  {
    if path != [] {
      var v := VerboseFor(prefix, t.name);
      LabelledPaths(t.children[path[0]], Some(v), path[1..]);
    }
  }

  /** Below a non-empty prefix `p`, a node's verbose label is `p`, ": " and the joined path. */
  lemma {:induction false} LabelledBelowPrefix(t: Tree, p: string, path: seq<nat>)
    requires p != "" && ValidPath(t, path)
    ensures ValidPath(Labelled(t, Some(p)), path)
    ensures At(Labelled(t, Some(p)), path).verbose == p + ": " + Join([t.name] + LabelsOnPath(t, path))
    decreases |path|
  {
    LabelledPaths(t, Some(p), path);
    if path != [] {
      var c := t.children[path[0]];
      var v := p + ": " + t.name;
      LabelledBelowPrefix(c, v, path[1..]);
      var rest := LabelsOnPath(c, path[1..]);
      assert LabelsOnPath(t, path) == [c.name] + rest;
      assert ([t.name] + ([c.name] + rest))[1..] == [c.name] + rest;
    }
  }

  /**
   * From the root: the root's verbose label is "", and every other node's is the names on
   * the path to it joined by ": ", provided the root's child on that path has a non-empty
   * name (a child of the root named "" passes "" down, so its children start afresh).
   */
  lemma VerboseIsJoinedPath(t: Tree, path: seq<nat>)
    requires ValidPath(t, path)
    requires path != [] ==> t.children[path[0]].name != ""
    ensures ValidPath(Labelled(t, None), path)
    ensures At(Labelled(t, None), path).verbose == Join(LabelsOnPath(t, path))
  {
    LabelledPaths(t, None, path);
    if path != [] {
      var c := t.children[path[0]];
      var q := path[1..];
      assert At(Labelled(t, None), path) == At(Labelled(c, Some("")), q);
      if q != [] {
        var d := c.children[q[0]];
        LabelledBelowPrefix(d, c.name, q[1..]);
        assert At(Labelled(c, Some("")), q) == At(Labelled(d, Some(c.name)), q[1..]);
        var rest := LabelsOnPath(d, q[1..]);
        assert LabelsOnPath(t, path) == [c.name] + ([d.name] + rest);
        assert ([c.name] + ([d.name] + rest))[1..] == [d.name] + rest;
      }
    }
  }

  /** The rule node by node: a node's verbose label is made from its parent's. */
  lemma {:induction false} VerboseFromParent(t: Tree, prefix: Option<string>, path: seq<nat>, k: nat)
    requires ValidPath(t, path) && k < |At(t, path).children|
    ensures ValidPath(Labelled(t, prefix), path)
    ensures ValidPath(t, path + [k]) && ValidPath(Labelled(t, prefix), path + [k])
    ensures var l := Labelled(t, prefix);
            At(l, path + [k]).verbose == VerboseFor(Some(At(l, path).verbose), At(t, path + [k]).name)
    decreases |path|
  {
    LabelledPaths(t, prefix, path);
    if path != [] {
      var v := VerboseFor(prefix, t.name);
      assert (path + [k])[1..] == path[1..] + [k];
      VerboseFromParent(t.children[path[0]], Some(v), path[1..], k);
    }
  }

  /** Labelling keeps the leaves, with their names, in order. */
  lemma {:induction false} LabelledLeaves(t: Tree, prefix: Option<string>)
    ensures var ls := Leaves(Labelled(t, prefix));
      |ls| == |Leaves(t)| && forall k :: 0 <= k < |ls| ==> ls[k].name == Leaves(t)[k].name
    decreases t
  {
    if !IsLeaf(t) {
      var v := VerboseFor(prefix, t.name);
      var l := Labelled(t, prefix);
      var xs := seq(|l.children|, i requires 0 <= i < |l.children| => Leaves(l.children[i]));
      var ys := seq(|t.children|, i requires 0 <= i < |t.children| => Leaves(t.children[i]));
      forall i | 0 <= i < |t.children| ensures SameNames(xs[i], ys[i]) {
        LabelledLeaves(t.children[i], Some(v));
      }
      ConcatSameNames(xs, ys);
    }
  }

  predicate SameNames(a: seq<Tree>, b: seq<Tree>) {
    |a| == |b| && forall k :: 0 <= k < |a| ==> a[k].name == b[k].name
  }

  lemma {:induction false} ConcatSameNames(xss: seq<seq<Tree>>, yss: seq<seq<Tree>>)
    requires |xss| == |yss|
    requires forall i :: 0 <= i < |xss| ==> SameNames(xss[i], yss[i])
    ensures SameNames(Concat(xss), Concat(yss))
    decreases |xss|
  {
    if xss != [] {
      var n := |xss| - 1;
      ConcatSameNames(xss[..n], yss[..n]);
      var a, b := Concat(xss[..n]), Concat(yss[..n]);
      assert forall k :: |a| <= k < |a| + |xss[n]| ==> (a + xss[n])[k] == xss[n][k - |a|];
      assert forall k :: |b| <= k < |b| + |yss[n]| ==> (b + yss[n])[k] == yss[n][k - |b|];
    }
  }

  /**
   * The in-place pass over a node object: writes the verbose label of `t` from `prefix`
   * (`None` for the root) and of every node below it from its parent's.
   */
  method ComputeVerboseLabels(t: Node, prefix: Option<string>)
    requires t.Valid()
    modifies t.Repr
    ensures t.Valid() && t.Repr == old(t.Repr)
    ensures t.model == Labelled(old(t.model), prefix)
    decreases t.Repr, 1
  {
    if prefix == None {
      t.verbose := "";
    } else if prefix.value == "" {
      t.verbose := t.name;
    } else {
      t.verbose := prefix.value + ": " + t.name;
    }
    assert t.verbose == VerboseFor(prefix, t.name);
    ghost var m0 := t.model;
    ghost var labelled: seq<Tree> := [];
    ghost var v := t.verbose;
    var i := 0;
    while i < |t.children|
      modifies t.Repr - {t}
      invariant 0 <= i <= |t.children|
      invariant LabelledSoFar(t, m0.children, labelled, v) && |labelled| == i
    {
      LabelChild(t, i, t.verbose, m0.children, labelled);
      labelled := labelled + [Labelled(m0.children[i], Some(v))];
      i := i + 1;
    }
    t.model := t.model.(verbose := t.verbose, children := labelled);
    ValidAfterChildren(t, m0.children, labelled);
    LabelledOfChildren(m0, prefix, labelled);
  }

  /** A node whose children have been labelled below its own verbose label is labelled. */
  lemma LabelledOfChildren(t: Tree, prefix: Option<string>, labelled: seq<Tree>)
    requires |labelled| == |t.children|
    requires forall j :: 0 <= j < |labelled| ==> labelled[j] == Labelled(t.children[j], Some(VerboseFor(prefix, t.name)))
    ensures Labelled(t, prefix) == t.(verbose := VerboseFor(prefix, t.name), children := labelled)
  {
  }

  /**
   * Part way through the loop of `ComputeVerboseLabels`: the first |done| children are
   * labelled below the parent's verbose label `v`.
   */
  ghost predicate LabelledSoFar(t: Node, before: seq<Tree>, done: seq<Tree>, v: string)
    reads t`children, t`Repr, t.Repr - {t}
  {
    && ChildrenProgress(t, before, done)
    && forall j :: 0 <= j < |done| ==> done[j] == Labelled(before[j], Some(v))
  }

  /** The recursive call on the i-th child of `t`: one more child labelled. */
  method LabelChild(t: Node, i: nat, parentVerbose: string, ghost before: seq<Tree>, ghost done: seq<Tree>)
    requires LabelledSoFar(t, before, done, parentVerbose) && i == |done| < |t.children|
    modifies t.children[i].Repr
    ensures unchanged(t)
    ensures LabelledSoFar(t, before, done + [Labelled(before[i], Some(parentVerbose))], parentVerbose)
    decreases t.Repr, 0
  {
    ComputeVerboseLabels(t.children[i], Some(parentVerbose));
    assert forall j :: 0 <= j < |t.children| && j != i ==>
      t.children[j].Valid() && t.children[j].model == old(t.children[j].model);
  }
}
