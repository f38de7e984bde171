/**
 * `prune_tree`: a copy of the tree without the subtrees, other than the whole tree,
 * whose root name is one of the values to discard. The input tree is not changed.
 */
module Pruning {
  import opened Trees

  /** The children that are kept: those whose name is not discarded, in their order. */
  function Survivors(cs: seq<Tree>, discard: seq<string>): (r: seq<Tree>)
    ensures |r| <= |cs|
    ensures forall k :: 0 <= k < |r| ==> r[k].name !in discard
  {
    if cs == [] then []
    else
      var last := cs[|cs| - 1];
      Survivors(cs[..|cs| - 1], discard) + (if last.name in discard then [] else [last])
  }

  /** A child survives exactly when it is a child whose name is not discarded. */
  lemma {:induction false} SurvivorsMembers(cs: seq<Tree>, discard: seq<string>)
    ensures forall c :: c in Survivors(cs, discard) <==> c in cs && c.name !in discard
    decreases |cs|
  {
    if cs != [] {
      SurvivorsMembers(cs[..|cs| - 1], discard);
      assert cs == cs[..|cs| - 1] + [cs[|cs| - 1]];
    }
  }

  /** The pruned copy of a tree. The copy's verbose labels are "", as for new nodes. */
  function Pruned(t: Tree, discard: seq<string>): (r: Tree)
    ensures r.name == t.name && r.count == t.count
    decreases t
  {
    var s := Survivors(t.children, discard);
    SurvivorsMembers(t.children, discard);
    Tree(t.name, t.count, "",
         seq(|s|, i requires 0 <= i < |s| => assert s[i] in t.children; Pruned(s[i], discard)))
  }

  /** Each of a sequence of trees, pruned. */
  function PruneEach(cs: seq<Tree>, discard: seq<string>): (r: seq<Tree>)
    ensures |r| == |cs|
    ensures forall i :: 0 <= i < |cs| ==> r[i] == Pruned(cs[i], discard)
  {
    seq(|cs|, i requires 0 <= i < |cs| => Pruned(cs[i], discard))
  }

  /** No node below the root has a discarded name. */
  predicate NoneDiscarded(t: Tree, discard: seq<string>)
    decreases t
  {
    forall i :: 0 <= i < |t.children| ==>
      t.children[i].name !in discard && NoneDiscarded(t.children[i], discard)
  }

  /** Survivors keep their order: those of `a` come first, then those of `b`. */
  lemma {:induction false} SurvivorsPlus(a: seq<Tree>, b: seq<Tree>, discard: seq<string>)
    ensures Survivors(a + b, discard) == Survivors(a, discard) + Survivors(b, discard)
    decreases |b|
  {
    if b == [] {
      assert a + b == a;
    } else {
      var b' := b[..|b| - 1];
      assert (a + b)[..|a + b| - 1] == a + b';
      SurvivorsPlus(a, b', discard);
    }
  }

  /** When no name is discarded, every child survives, in place. */
  lemma {:induction false} SurvivorsOfKept(cs: seq<Tree>, discard: seq<string>)
    requires forall i :: 0 <= i < |cs| ==> cs[i].name !in discard
    ensures Survivors(cs, discard) == cs
    decreases |cs|
  {
    if cs != [] {
      SurvivorsOfKept(cs[..|cs| - 1], discard);
    }
  }

  lemma {:induction false} PrunedNoneDiscarded(t: Tree, discard: seq<string>)
    ensures NoneDiscarded(Pruned(t, discard), discard)
    decreases t
  {
    var s := Survivors(t.children, discard);
    SurvivorsMembers(t.children, discard);
    forall i | 0 <= i < |s|
      ensures s[i].name !in discard && NoneDiscarded(Pruned(s[i], discard), discard)
    {
      assert s[i] in t.children;
      PrunedNoneDiscarded(s[i], discard);
    }
  }

  /** With nothing to discard, the copy equals the input in names, counts and shape. */
  lemma {:induction false} PrunedNothing(t: Tree)
    ensures Pruned(t, []) == EraseVerbose(t)
    decreases t
  {
    SurvivorsOfKept(t.children, []);
    forall i | 0 <= i < |t.children| {
      PrunedNothing(t.children[i]);
    }
  }

  /** Pruning a second time with the same values changes nothing. */
  lemma {:induction false} PrunedIdempotent(t: Tree, discard: seq<string>)
    ensures Pruned(Pruned(t, discard), discard) == Pruned(t, discard)
    decreases t
  {
    var p := Pruned(t, discard);
    var s := Survivors(t.children, discard);
    SurvivorsMembers(t.children, discard);
    assert forall i :: 0 <= i < |p.children| ==> p.children[i].name == s[i].name;
    SurvivorsOfKept(p.children, discard);
    forall i | 0 <= i < |s| ensures Pruned(p.children[i], discard) == p.children[i] {
      assert s[i] in t.children;
      PrunedIdempotent(s[i], discard);
    }
  }

  /** Every node of the copy is a node of the input, at the same depth, with its name and count. */
  lemma {:induction false} PrunedNodesFromInput(t: Tree, discard: seq<string>, path: seq<nat>)
    requires ValidPath(Pruned(t, discard), path)
    ensures exists q :: |q| == |path| && ValidPath(t, q) &&
              At(t, q).name == At(Pruned(t, discard), path).name &&
              At(t, q).count == At(Pruned(t, discard), path).count
    decreases |path|
  {
    if path == [] {
      assert ValidPath(t, []) && At(t, []) == t;
    } else {
      var s := Survivors(t.children, discard);
      SurvivorsMembers(t.children, discard);
      var c := s[path[0]];
      assert c in t.children;
      PrunedNodesFromInput(c, discard, path[1..]);
      var q' :| |q'| == |path[1..]| && ValidPath(c, q') &&
                At(c, q').name == At(Pruned(c, discard), path[1..]).name &&
                At(c, q').count == At(Pruned(c, discard), path[1..]).count;
      var j :| 0 <= j < |t.children| && t.children[j] == c;
      var q := [j] + q';
      assert q[1..] == q';
      assert ValidPath(t, q) && At(t, q) == At(c, q');
    }
  }

  /** One more child considered: its pruned copy is appended unless its name is discarded. */
  lemma PrunedPrefixNext(cs: seq<Tree>, i: nat, discard: seq<string>)
    requires i < |cs|
    ensures PruneEach(Survivors(cs[..i + 1], discard), discard)
         == PruneEach(Survivors(cs[..i], discard), discard)
            + if cs[i].name in discard then [] else [Pruned(cs[i], discard)]
  {
    assert cs[..i + 1][..i] == cs[..i];
    var a := Survivors(cs[..i], discard);
    var b := if cs[i].name in discard then [] else [cs[i]];
    assert Survivors(cs[..i + 1], discard) == a + b;
    assert PruneEach(a + b, discard) == PruneEach(a, discard) + PruneEach(b, discard);
  }

  /**
   * The pruning pass over a node object: a fresh tree of new nodes; it has no
   * `modifies` clause, so the input tree is left as it was.
   */
  method PruneTree(t: Node, discard: seq<string>) returns (r: Node)
    requires t.Valid()
    ensures r.Valid() && fresh(r.Repr)
    ensures r.model == Pruned(t.model, discard)
    decreases t.Repr
  {
    r := new Node(t.name, t.count);
    ghost var m := t.model;
    var i := 0;
    while i < |t.children|
      invariant 0 <= i <= |t.children|
      invariant r.Valid() && fresh(r.Repr)
      invariant r.model == Tree(m.name, m.count, "", PruneEach(Survivors(m.children[..i], discard), discard))
    {
      var st := t.children[i];
      ChildOfValid(t, i);
      PrunedPrefixNext(m.children, i, discard);
      if st.name !in discard {
        var c := PruneTree(st, discard);
        r.AddChild(c);
      }
      i := i + 1;
    }
    assert m.children[..i] == m.children;
  }
}
