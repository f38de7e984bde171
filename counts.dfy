/**
 * `compute_internal_counts`: every interior node's count becomes the sum of its
 * children's counts, bottom-up; leaf counts are what the data gave.
 */
module InternalCounts {
  import opened Trees

  /** The tree with its interior counts filled in. */
  function FillCounts(t: Tree): (r: Tree)
    ensures r.name == t.name && r.verbose == t.verbose && |r.children| == |t.children|
    ensures IsLeaf(t) ==> r.count == t.count
    ensures !IsLeaf(t) ==> r.count == SumCounts(r.children)
    decreases t
  {
    if IsLeaf(t) then t
    else
      var cs := seq(|t.children|, i requires 0 <= i < |t.children| => FillCounts(t.children[i]));
      t.(count := SumCounts(cs), children := cs)
  }

  /** Every interior node's count is the sum of its children's counts. */
  predicate CountsConsistent(t: Tree)
    decreases t
  {
    && (!IsLeaf(t) ==> t.count == SumCounts(t.children))
    && forall i :: 0 <= i < |t.children| ==> CountsConsistent(t.children[i])
  }

  lemma {:induction false} FillCountsConsistent(t: Tree)
    ensures CountsConsistent(FillCounts(t))
    decreases t
  {
    forall i | 0 <= i < |t.children| {
      FillCountsConsistent(t.children[i]);
    }
  }

  /** Only counts change: names, verbose labels and the shape are kept. */
  lemma {:induction false} FillCountsKeepsShape(t: Tree)
    ensures EraseCounts(FillCounts(t)) == EraseCounts(t)
    decreases t
  {
    forall i | 0 <= i < |t.children| {
      FillCountsKeepsShape(t.children[i]);
    }
  }

  /** Leaves, and so their counts, are kept exactly. */
  lemma {:induction false} FillCountsKeepsLeaves(t: Tree)
    ensures Leaves(FillCounts(t)) == Leaves(t)
    decreases t
  {
    if !IsLeaf(t) {
      var f := FillCounts(t);
      forall i | 0 <= i < |t.children| {
        FillCountsKeepsLeaves(t.children[i]);
      }
      assert seq(|f.children|, i requires 0 <= i < |f.children| => Leaves(f.children[i]))
          == seq(|t.children|, i requires 0 <= i < |t.children| => Leaves(t.children[i]));
    }
  }

  /** A tree whose counts are already consistent is left as it is. */
  lemma {:induction false} FillCountsOfConsistent(t: Tree)
    requires CountsConsistent(t)
    ensures FillCounts(t) == t
    decreases t
  {
    if !IsLeaf(t) {
      var cs := seq(|t.children|, i requires 0 <= i < |t.children| => FillCounts(t.children[i]));
      forall i | 0 <= i < |t.children| ensures cs[i] == t.children[i] {
        FillCountsOfConsistent(t.children[i]);
      }
      assert cs == t.children;
    }
  }

  /** Running the pass a second time changes no count. */
  lemma FillCountsIdempotent(t: Tree)
    ensures FillCounts(FillCounts(t)) == FillCounts(t)
  {
    FillCountsConsistent(t);
    FillCountsOfConsistent(FillCounts(t));
  }

  /** The filled-in count of any node is the total of the counts of its leaves. */
  lemma {:induction false} FillCountsIsLeafTotal(t: Tree)
    ensures FillCounts(t).count == SumCounts(Leaves(t))
    decreases t, 1
  {
    if IsLeaf(t) {
      assert SumCounts([t]) == SumCounts([]) + t.count;
    } else {
      var cs := seq(|t.children|, i requires 0 <= i < |t.children| => FillCounts(t.children[i]));
      var ls := seq(|t.children|, i requires 0 <= i < |t.children| => Leaves(t.children[i]));
      ChildrenLeafTotal(t, cs, ls, |t.children|);
      assert cs[..|t.children|] == cs;
      assert ls[..|t.children|] == ls;
    }
  }

  /**
   * For the children of `t`, filled in (`cs`) and as their leaves (`ls`): the first k
   * filled-in children sum to the total over the leaves of the first k children.
   */
  lemma {:induction false} ChildrenLeafTotal(t: Tree, cs: seq<Tree>, ls: seq<seq<Tree>>, k: nat)
    requires |cs| == |ls| == |t.children| && k <= |t.children|
    requires forall i :: 0 <= i < |t.children| ==> cs[i] == FillCounts(t.children[i]) && ls[i] == Leaves(t.children[i])
    ensures SumCounts(cs[..k]) == SumCounts(Concat(ls[..k]))
    decreases t, 0, k
  {
    if k > 0 {
      ChildrenLeafTotal(t, cs, ls, k - 1);
      var c := t.children[k - 1];
      assert cs[k - 1] == FillCounts(c) && ls[k - 1] == Leaves(c);
      FillCountsIsLeafTotal(c);
      SumCountsPrefixNext(cs, k - 1);
      ConcatPrefixNext(ls, k - 1);
      SumCountsPlus(Concat(ls[..k - 1]), ls[k - 1]);
    }
  }

  /**
   * The in-place pass over a node object: fills in every interior count of the tree
   * below `t` and returns the count of `t` itself (a leaf's count as given, otherwise
   * the sum of its children's counts).
   */
  method ComputeInternalCounts(t: Node) returns (total: nat)
    requires t.Valid()
    modifies t.Repr
    ensures t.Valid() && t.Repr == old(t.Repr)
    ensures t.model == FillCounts(old(t.model))
    ensures total == t.model.count
    decreases t.Repr, 1
  {
    if |t.children| == 0 {
      return t.count;
    }
    ghost var m0 := t.model;
    ghost var filled: seq<Tree> := [];
    var totalCount := 0;
    var i := 0;
    while i < |t.children|
      modifies t.Repr - {t}, t`count
      invariant 0 <= i <= |t.children|
      invariant FilledSoFar(t, m0.children, filled) && |filled| == i
      invariant totalCount == SumCounts(filled)
      invariant t.count == if i == 0 then m0.count else totalCount
    {
      var sub := CountChild(t, i, m0.children, filled);
      totalCount := totalCount + sub;
      t.count := totalCount;
      SumCountsAppend(filled, FillCounts(m0.children[i]));
      filled := filled + [FillCounts(m0.children[i])];
      i := i + 1;
    }
    t.model := t.model.(count := totalCount, children := filled);
    ValidAfterChildren(t, m0.children, filled);
    assert filled
        == seq(|m0.children|, j requires 0 <= j < |m0.children| => FillCounts(m0.children[j]));
    return t.count;
  }

  /** Part way through the loop of `ComputeInternalCounts`: the first |done| children are filled in. */
  ghost predicate FilledSoFar(t: Node, before: seq<Tree>, done: seq<Tree>)
    reads t`children, t`Repr, t.Repr - {t}
  {
    && ChildrenProgress(t, before, done)
    && forall j :: 0 <= j < |done| ==> done[j] == FillCounts(before[j])
  }

  /** The recursive call on the i-th child of `t`: one more child filled in. */
  method CountChild(t: Node, i: nat, ghost before: seq<Tree>, ghost done: seq<Tree>) returns (sub: nat)
    requires FilledSoFar(t, before, done) && i == |done| < |t.children|
    modifies t.children[i].Repr
    ensures unchanged(t)
    ensures FilledSoFar(t, before, done + [FillCounts(before[i])])
    ensures sub == FillCounts(before[i]).count
    decreases t.Repr, 0
  {
    sub := ComputeInternalCounts(t.children[i]);
    assert forall j :: 0 <= j < |t.children| && j != i ==>
      t.children[j].Valid() && t.children[j].model == old(t.children[j].model);
  }
}
