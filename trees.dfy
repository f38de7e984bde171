/**
 * The labelled, weighted tree that the treemap works on. The `tree` module of the
 * repository is not part of this model; this module stands in for it.
 *
 * `Tree` is the value of a tree: a node's name (the `label` attribute of the repository's
 * trees; `label` is a reserved word in Dafny), its count, its verbose (full path) label and
 * its children in order. `Node` is the mutable object the treemap code
 * updates in place; its ghost field `model` is the `Tree` it currently denotes.
 */
module Trees {

  datatype Tree = Tree(name: string, count: nat, verbose: string, children: seq<Tree>)

  /** A leaf is a node without children. */
  predicate IsLeaf(t: Tree) {
    t.children == []
  }

  /** Sum of the counts of a sequence of trees. */
  function SumCounts(ts: seq<Tree>): nat {
    if ts == [] then 0 else SumCounts(ts[..|ts| - 1]) + ts[|ts| - 1].count
  }

  lemma SumCountsAppend(ts: seq<Tree>, u: Tree)
    ensures SumCounts(ts + [u]) == SumCounts(ts) + u.count
  {
    assert (ts + [u])[..|ts|] == ts;
  }

  /** The first i + 1 trees sum to the first i and the next one. */
  lemma SumCountsPrefixNext(ts: seq<Tree>, i: nat)
    requires i < |ts|
    ensures SumCounts(ts[..i + 1]) == SumCounts(ts[..i]) + ts[i].count
  {
    assert ts[..i + 1][..i] == ts[..i];
  }

  lemma {:induction false} SumCountsPlus(a: seq<Tree>, b: seq<Tree>)
    ensures SumCounts(a + b) == SumCounts(a) + SumCounts(b)
    decreases |b|
  {
    if b == [] {
      assert a + b == a;
    } else {
      var b' := b[..|b| - 1];
      assert a + b == (a + b') + [b[|b| - 1]];
      assert b == b' + [b[|b| - 1]];
      SumCountsAppend(a + b', b[|b| - 1]);
      SumCountsAppend(b', b[|b| - 1]);
      SumCountsPlus(a, b');
    }
  }

  /** Trees with the same counts, node by node, sum to the same total. */
  lemma {:induction false} SumCountsSameCounts(a: seq<Tree>, b: seq<Tree>)
    requires |a| == |b| && forall i :: 0 <= i < |a| ==> a[i].count == b[i].count
    ensures SumCounts(a) == SumCounts(b)
    decreases |a|
  {
    if a != [] {
      SumCountsSameCounts(a[..|a| - 1], b[..|b| - 1]);
    }
  }

  /** A prefix sums to no more than the whole sequence. */
  lemma SumCountsPrefix(ts: seq<Tree>, i: nat)
    requires i <= |ts|
    ensures SumCounts(ts[..i]) <= SumCounts(ts)
  {
    assert ts == ts[..i] + ts[i..];
    SumCountsPlus(ts[..i], ts[i..]);
  }

  /** Concatenation of a sequence of sequences, in order. */
  function Concat<T>(ss: seq<seq<T>>): seq<T> {
    if ss == [] then [] else Concat(ss[..|ss| - 1]) + ss[|ss| - 1]
  }

  lemma ConcatAppend<T>(ss: seq<seq<T>>, s: seq<T>)
    ensures Concat(ss + [s]) == Concat(ss) + s
  {
    assert (ss + [s])[..|ss|] == ss;
  }

  lemma {:induction false} ConcatPlus<T>(a: seq<seq<T>>, b: seq<seq<T>>)
    ensures Concat(a + b) == Concat(a) + Concat(b)
    decreases |b|
  {
    if b == [] {
      assert a + b == a;
    } else {
      var b' := b[..|b| - 1];
      assert a + b == (a + b') + [b[|b| - 1]];
      assert b == b' + [b[|b| - 1]];
      ConcatAppend(a + b', b[|b| - 1]);
      ConcatAppend(b', b[|b| - 1]);
      ConcatPlus(a, b');
    }
  }

  /** The first i + 1 parts are the first i parts followed by the next one. */
  lemma ConcatPrefixNext<T>(ss: seq<seq<T>>, i: nat)
    requires i < |ss|
    ensures Concat(ss[..i + 1]) == Concat(ss[..i]) + ss[i]
  {
    assert ss[..i + 1] == ss[..i] + [ss[i]];
    ConcatAppend(ss[..i], ss[i]);
  }

  /** Cutting the parts at i cuts the concatenation between the first i parts and the rest. */
  lemma ConcatSplit<T>(ss: seq<seq<T>>, i: nat)
    requires i <= |ss|
    ensures Concat(ss) == Concat(ss[..i]) + Concat(ss[i..])
  {
    assert ss == ss[..i] + ss[i..];
    ConcatPlus(ss[..i], ss[i..]);
  }

  /** Every element of a concatenation comes from one of its parts. */
  lemma {:induction false} ConcatMember<T>(ss: seq<seq<T>>, x: T)
    requires x in Concat(ss)
    ensures exists i :: 0 <= i < |ss| && x in ss[i]
    decreases |ss|
  {
    var n := |ss| - 1;
    if x !in ss[n] {
      ConcatMember(ss[..n], x);
      var i :| 0 <= i < n && x in ss[..n][i];
      assert x in ss[i];
    }
  }

  /** The leaves of a tree, from left to right. */
  function Leaves(t: Tree): (r: seq<Tree>)
    decreases t
  {
    if IsLeaf(t) then [t]
    else Concat(seq(|t.children|, i requires 0 <= i < |t.children| => Leaves(t.children[i])))
  }

  /** The tree with every count set to 0: its shape, names and verbose labels. */
  function EraseCounts(t: Tree): Tree
    decreases t
  {
    Tree(t.name, 0, t.verbose,
         seq(|t.children|, i requires 0 <= i < |t.children| => EraseCounts(t.children[i])))
  }

  /** The tree with every verbose label set to "": its shape, names and counts. */
  function EraseVerbose(t: Tree): Tree
    decreases t
  {
    Tree(t.name, t.count, "",
         seq(|t.children|, i requires 0 <= i < |t.children| => EraseVerbose(t.children[i])))
  }

  /** A path is a sequence of child indices leading down from the root. */
  predicate ValidPath(t: Tree, path: seq<nat>)
    decreases |path|
  {
    path == [] || (path[0] < |t.children| && ValidPath(t.children[path[0]], path[1..]))
  }

  /** The node a path leads to. */
  function At(t: Tree, path: seq<nat>): Tree
    requires ValidPath(t, path)
    decreases |path|
  {
    if path == [] then t else At(t.children[path[0]], path[1..])
  }

  /** The labels of the nodes on a path, the start node excluded and the end node included. */
  function LabelsOnPath(t: Tree, path: seq<nat>): seq<string>
    requires ValidPath(t, path)
    decreases |path|
  {
    if path == [] then []
    else [t.children[path[0]].name] + LabelsOnPath(t.children[path[0]], path[1..])
  }

  /** The mutable tree object. */
  class Node {
    var name: string
    var count: nat
    var verbose: string
    var children: seq<Node>

    ghost var Repr: set<object>
    ghost var model: Tree

    /**
     * The object invariant: `model` mirrors the fields of this node and of its children,
     * and the children are valid trees owned by this node.
     */
    ghost predicate Valid()
      reads this, Repr
      ensures Valid() ==> this in Repr
      decreases Repr, 1
    {
      && this in Repr
      && model.name == name
      && model.count == count
      && model.verbose == verbose
      && |model.children| == |children|
      && ChildrenValid()
      && (forall i :: 0 <= i < |children| ==> model.children[i] == children[i].model)
    }

    /**
     * Every child is valid, owns a footprint inside this node's and not containing this
     * node, and the footprints of distinct children are disjoint (the children form a
     * tree, not a graph). It does not read this node's own name, count, verbose label
     * or model, so writing those keeps it.
     */
    ghost predicate ChildrenValid()
      reads this`children, this`Repr, Repr - {this}
      decreases Repr, 0
    {
      && this in Repr
      && (forall i :: 0 <= i < |children| ==>
            && children[i] in Repr
            && children[i] != this
            && children[i].Repr <= Repr
            && this !in children[i].Repr
            && children[i].Valid())
      && (forall i, j :: 0 <= i < j < |children| ==> children[i].Repr !! children[j].Repr)
    }

    /** A new childless node, as `tree.Tree(label, count)` makes one. */
    constructor (name: string, count: nat)
      ensures Valid() && fresh(Repr)
      ensures model == Tree(name, count, "", [])
    {
      this.name := name;
      this.count := count;
      this.verbose := "";
      this.children := [];
      Repr := {this};
      model := Tree(name, count, "", []);
    }

    /** Appends `c` as the last child of this node. */
    method AddChild(c: Node)
      requires Valid() && c.Valid()
      requires Repr !! c.Repr
      modifies this
      ensures Valid()
      ensures Repr == old(Repr) + c.Repr
      ensures model == old(model).(children := old(model.children) + [c.model])
    {
      children := children + [c];
      Repr := Repr + c.Repr;
      model := model.(children := model.children + [c.model]);
      assert forall i :: 0 <= i < |children| - 1 ==> children[i] == old(children)[i];
    }
  }

  /**
   * Part way through a pass over the children of `t` that rewrites each child's tree:
   * the children are valid trees owned by `t`; the first |done| now have the models in
   * `done`, the others still those in `before`. It does not read `t`'s own name, count,
   * verbose label or model.
   */
  ghost predicate ChildrenProgress(t: Node, before: seq<Tree>, done: seq<Tree>)
    reads t`children, t`Repr, t.Repr - {t}
  {
    && t.ChildrenValid()
    && |t.children| == |before|
    && |done| <= |before|
    && (forall j :: 0 <= j < |t.children| ==>
          t.children[j].model == if j < |done| then done[j] else before[j])
  }

  /** A pass over all the children of `t` that leaves `t`'s model mirroring them keeps `t` valid. */
  lemma ValidAfterChildren(t: Node, before: seq<Tree>, done: seq<Tree>)
    requires ChildrenProgress(t, before, done) && |done| == |before|
    requires t.model == Tree(t.name, t.count, t.verbose, done)
    ensures t.Valid()
  {
  }

  /** What a valid node's invariant says about its i-th child. */
  lemma ChildOfValid(t: Node, i: nat)
    requires t.Valid() && i < |t.children|
    ensures t.children[i].Valid() && t.children[i].Repr < t.Repr
    ensures t.children[i].model == t.model.children[i]
    ensures t.children[i].name == t.model.children[i].name
    ensures t.children[i].count == t.model.children[i].count && t.count == t.model.count
  {
  }
}
