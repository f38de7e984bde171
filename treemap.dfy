/**
 * The slice-and-dice layout of `compute_rectangles` / `create_helper`: a node's region
 * is cut into one slice per child, in proportion to the children's counts, side by
 * side along x when `change` holds and along y otherwise; `change` flips at every
 * level, and every leaf becomes one rectangle. Arithmetic is exact (`real`).
 */
module Treemap {
  import opened Wrappers
  import opened Trees
  import opened Rectangles
  import opened InternalCounts
  import opened VerboseLabels

  /** The share of `extent` for `part` out of `total`; nothing when the total is 0. */
  function Slice(total: nat, part: nat, extent: real): (s: real)
    ensures total == 0 ==> s == 0.0
    ensures total > 0 ==> s * total as real == part as real * extent
  {
    if total == 0 then 0.0 else (part as real / total as real) * extent
  }

  /**
   * The region handed to the i-th child: it starts where the slices of the children
   * before it end, and its extent along the slicing axis is that child's share.
   */
  function ChildBox(t: Tree, b: Box, change: bool, i: nat): Box
    requires i < |t.children|
  {
    var before := SumCounts(t.children[..i]);
    var part := t.children[i].count;
    if change then Box(b.x + Slice(t.count, before, b.width), b.y, Slice(t.count, part, b.width), b.height)
    else Box(b.x, b.y + Slice(t.count, before, b.height), b.width, Slice(t.count, part, b.height))
  }

  /** The rectangles of a tree laid out in `b`: one per leaf, from left to right. */
  function Layout(t: Tree, b: Box, change: bool): (r: seq<Rect>)
    ensures r != []
    ensures IsLeaf(t) ==> r == [Rect(b.x, b.y, b.width, b.height, t.name, t.verbose)]
    decreases t
  {
    if IsLeaf(t) then [Rect(b.x, b.y, b.width, b.height, t.name, t.verbose)]
    else Concat(seq(|t.children|, i requires 0 <= i < |t.children| =>
                      Layout(t.children[i], ChildBox(t, b, change, i), !change)))
  }

  /** The region of a rectangle. */
  function BoxOf(r: Rect): Box {
    Box(r.x, r.y, r.width, r.height)
  }

  /** `inner` lies within `outer` and has no negative extent. */
  predicate Within(inner: Box, outer: Box) {
    && outer.x <= inner.x && 0.0 <= inner.width && inner.x + inner.width <= outer.x + outer.width
    && outer.y <= inner.y && 0.0 <= inner.height && inner.y + inner.height <= outer.y + outer.height
  }

  // Shares of an extent.

  lemma SliceAdd(total: nat, a: nat, b: nat, extent: real)
    ensures Slice(total, a, extent) + Slice(total, b, extent) == Slice(total, a + b, extent)
  {
    if total != 0 {
      var p := total as real;
      assert a as real / p + b as real / p == (a + b) as real / p;
      assert (a as real / p) * extent + (b as real / p) * extent == (a as real / p + b as real / p) * extent;
    }
  }

  lemma SliceWhole(total: nat, extent: real)
    requires total > 0
    ensures Slice(total, total, extent) == extent
  {
    assert total as real / total as real == 1.0;
  }

  lemma SliceBounds(total: nat, a: nat, b: nat, extent: real)
    requires a <= b && 0.0 <= extent
    ensures 0.0 <= Slice(total, a, extent) <= Slice(total, b, extent)
  {
    if total != 0 {
      var p := total as real;
      assert 0.0 <= a as real / p <= b as real / p;
      assert (b as real / p) * extent - (a as real / p) * extent == (b as real / p - a as real / p) * extent;
    }
  }

  /** The total width, or height, of a sequence of regions. */
  function TotalExtent(bs: seq<Box>, alongX: bool): real {
    if bs == [] then 0.0
    else TotalExtent(bs[..|bs| - 1], alongX) + (if alongX then bs[|bs| - 1].width else bs[|bs| - 1].height)
  }

  /** The regions handed to the children, in order; a node of count 0 hands out empty slices. */
  function ChildBoxes(t: Tree, b: Box, change: bool): (r: seq<Box>)
    ensures |r| == |t.children|
    ensures t.count == 0 ==> forall c :: c in r ==> (if change then c.width else c.height) == 0.0
  {
    seq(|t.children|, i requires 0 <= i < |t.children| => ChildBox(t, b, change, i))
  }

  /** The first k slices together are the share of the first k children. */
  lemma {:induction false} TotalExtentPrefix(t: Tree, b: Box, change: bool, k: nat)
    requires k <= |t.children|
    ensures TotalExtent(ChildBoxes(t, b, change)[..k], change)
         == Slice(t.count, SumCounts(t.children[..k]), if change then b.width else b.height)
    decreases k
  {
    var bs := ChildBoxes(t, b, change);
    var extent := if change then b.width else b.height;
    if k > 0 {
      TotalExtentPrefix(t, b, change, k - 1);
      assert bs[..k][..k - 1] == bs[..k - 1];
      assert t.children[..k] == t.children[..k - 1] + [t.children[k - 1]];
      SumCountsAppend(t.children[..k - 1], t.children[k - 1]);
      SliceAdd(t.count, SumCounts(t.children[..k - 1]), t.children[k - 1].count, extent);
    }
  }

  /**
   * How a node's region is cut. Slicing along x (`change`), the children keep the
   * parent's y and height and follow one another along x from the parent's x; along y,
   * the same with the axes exchanged.
   */
  lemma ChildBoxesFollow(t: Tree, b: Box, change: bool)
    requires !IsLeaf(t)
    ensures var bs := ChildBoxes(t, b, change);
      && bs[0].x == b.x && bs[0].y == b.y
      && (forall i :: 0 <= i < |bs| ==>
            if change then bs[i].y == b.y && bs[i].height == b.height
            else bs[i].x == b.x && bs[i].width == b.width)
      && (forall i :: 0 <= i < |bs| - 1 ==>
            if change then bs[i + 1].x == bs[i].x + bs[i].width
            else bs[i + 1].y == bs[i].y + bs[i].height)
  {
    var bs := ChildBoxes(t, b, change);
    assert t.children[..0] == [];
    forall i | 0 <= i < |bs| - 1
      ensures if change then bs[i + 1].x == bs[i].x + bs[i].width
              else bs[i + 1].y == bs[i].y + bs[i].height
    {
      ChildBoxNext(t, b, change, i);
    }
  }

  /** The (i+1)-th region starts where the i-th ends. */
  lemma ChildBoxNext(t: Tree, b: Box, change: bool, i: nat)
    requires i + 1 < |t.children|
    ensures var c, d := ChildBox(t, b, change, i), ChildBox(t, b, change, i + 1);
      if change then d.x == c.x + c.width else d.y == c.y + c.height
  {
    SumCountsPrefixNext(t.children, i);
    SliceAdd(t.count, SumCounts(t.children[..i]), t.children[i].count, if change then b.width else b.height);
  }

  /**
   * A node whose count is positive and the sum of its children's counts hands out its
   * whole width (slicing along x) or height (along y).
   */
  lemma ChildBoxesCover(t: Tree, b: Box, change: bool)
    requires 0 < t.count == SumCounts(t.children)
    ensures TotalExtent(ChildBoxes(t, b, change), change) == if change then b.width else b.height
  {
    var bs := ChildBoxes(t, b, change);
    TotalExtentPrefix(t, b, change, |bs|);
    assert bs[..|bs|] == bs;
    assert t.children[..|bs|] == t.children;
    SliceWhole(t.count, if change then b.width else b.height);
  }

  /** Each child's region lies within its parent's when the parent's count covers its children. */
  lemma ChildBoxWithin(t: Tree, b: Box, change: bool, i: nat)
    requires i < |t.children|
    requires t.count == SumCounts(t.children)
    requires 0.0 <= b.width && 0.0 <= b.height
    ensures Within(ChildBox(t, b, change, i), b)
  {
    SumCountsPrefixNext(t.children, i);
    SumCountsPrefix(t.children, i + 1);
    SliceWithin(t.count, SumCounts(t.children[..i]), t.children[i].count, if change then b.width else b.height);
  }

  /** Consecutive shares of a total fit inside the extent being shared. */
  lemma SliceWithin(total: nat, before: nat, part: nat, extent: real)
    requires before + part <= total && 0.0 <= extent
    ensures 0.0 <= Slice(total, before, extent) && 0.0 <= Slice(total, part, extent)
    ensures Slice(total, before, extent) + Slice(total, part, extent) <= extent
  {
    SliceAdd(total, before, part, extent);
    SliceBounds(total, 0, before, extent);
    SliceBounds(total, 0, part, extent);
    SliceBounds(total, before + part, total, extent);
    if total > 0 {
      SliceWhole(total, extent);
    }
  }

  /** Regions handed to children start no lower than the parent's and have no negative extent. */
  lemma ChildBoxNonNegative(t: Tree, b: Box, change: bool, i: nat)
    requires i < |t.children|
    requires 0.0 <= b.x && 0.0 <= b.y && 0.0 <= b.width && 0.0 <= b.height
    ensures var c := ChildBox(t, b, change, i);
      0.0 <= c.x && 0.0 <= c.y && 0.0 <= c.width && 0.0 <= c.height
  {
    var extent := if change then b.width else b.height;
    SliceBounds(t.count, 0, SumCounts(t.children[..i]), extent);
    SliceBounds(t.count, 0, t.children[i].count, extent);
  }

  /** The rectangles of a tree whose parts come from its children. */
  function ChildLayouts(t: Tree, b: Box, change: bool): (r: seq<seq<Rect>>)
    ensures |r| == |t.children|
  {
    seq(|t.children|, i requires 0 <= i < |t.children| =>
          Layout(t.children[i], ChildBox(t, b, change, i), !change))
  }

  /** Rectangles that match leaves one for one, in name and verbose label. */
  predicate MatchLeaves(rs: seq<Rect>, ls: seq<Tree>) {
    |rs| == |ls| && forall k :: 0 <= k < |rs| ==> rs[k].name == ls[k].name && rs[k].verbose == ls[k].verbose
  }

  lemma {:induction false} ConcatMatchLeaves(rss: seq<seq<Rect>>, lss: seq<seq<Tree>>)
    requires |rss| == |lss|
    requires forall i :: 0 <= i < |rss| ==> MatchLeaves(rss[i], lss[i])
    ensures MatchLeaves(Concat(rss), Concat(lss))
    decreases |rss|
  {
    if rss != [] {
      var n := |rss| - 1;
      ConcatMatchLeaves(rss[..n], lss[..n]);
      var a, b := Concat(rss[..n]), Concat(lss[..n]);
      assert forall k :: |a| <= k < |a| + |rss[n]| ==> (a + rss[n])[k] == rss[n][k - |a|];
      assert forall k :: |b| <= k < |b| + |lss[n]| ==> (b + lss[n])[k] == lss[n][k - |b|];
    }
  }

  /**
   * One rectangle per leaf, in left-to-right leaf order, carrying that leaf's name and
   * verbose label; a tree that is a single leaf gets exactly the region it was handed.
   */
  lemma {:induction false} LayoutMatchesLeaves(t: Tree, b: Box, change: bool)
    ensures MatchLeaves(Layout(t, b, change), Leaves(t))
    ensures IsLeaf(t) ==> Layout(t, b, change) == [Rect(b.x, b.y, b.width, b.height, t.name, t.verbose)]
    decreases t
  {
    if !IsLeaf(t) {
      var rss := ChildLayouts(t, b, change);
      var lss := seq(|t.children|, i requires 0 <= i < |t.children| => Leaves(t.children[i]));
      forall i | 0 <= i < |t.children| ensures MatchLeaves(rss[i], lss[i]) {
        LayoutMatchesLeaves(t.children[i], ChildBox(t, b, change, i), !change);
      }
      ConcatMatchLeaves(rss, lss);
    }
  }

  /** Laid out in a non-negative region, every rectangle is non-negative. */
  lemma {:induction false} LayoutNonNegative(t: Tree, b: Box, change: bool)
    requires 0.0 <= b.x && 0.0 <= b.y && 0.0 <= b.width && 0.0 <= b.height
    ensures forall r :: r in Layout(t, b, change) ==> NonNegative(r)
    decreases t
  {
    if !IsLeaf(t) {
      var rss := ChildLayouts(t, b, change);
      forall r | r in Layout(t, b, change) ensures NonNegative(r) {
        ConcatMember(rss, r);
        var i :| 0 <= i < |rss| && r in rss[i];
        ChildBoxNonNegative(t, b, change, i);
        LayoutNonNegative(t.children[i], ChildBox(t, b, change, i), !change);
      }
    }
  }

  /** Laid out in a non-negative region, the rectangles are all accepted, by either constructor, as they are. */
  lemma LayoutAccepted(c: Constructor, t: Tree, b: Box, change: bool)
    requires 0.0 <= b.x && 0.0 <= b.y && 0.0 <= b.width && 0.0 <= b.height
    ensures Checked(c, Layout(t, b, change)) == Success(Layout(t, b, change))
  {
    var rs := Layout(t, b, change);
    LayoutNonNegative(t, b, change);
    assert forall k :: 0 <= k < |rs| ==> rs[k] in rs;
  }

  /** Laid out in a region of non-negative size, wherever it is, no rectangle has a negative size. */
  lemma {:induction false} LayoutExtentsNonNegative(t: Tree, b: Box, change: bool)
    requires 0.0 <= b.width && 0.0 <= b.height
    ensures forall r :: r in Layout(t, b, change) ==> 0.0 <= r.width && 0.0 <= r.height
    decreases t
  {
    if !IsLeaf(t) {
      var rss := ChildLayouts(t, b, change);
      forall r | r in Layout(t, b, change) ensures 0.0 <= r.width && 0.0 <= r.height {
        ConcatMember(rss, r);
        var i :| 0 <= i < |rss| && r in rss[i];
        SliceBounds(t.count, 0, t.children[i].count, if change then b.width else b.height);
        LayoutExtentsNonNegative(t.children[i], ChildBox(t, b, change, i), !change);
      }
    }
  }

  /**
   * In a region of non-negative size the layout is checked alike by the constructor as
   * written and by the corrected one: only a negative size tells them apart.
   */
  lemma LayoutChecksAgree(t: Tree, b: Box, change: bool)
    requires 0.0 <= b.width && 0.0 <= b.height
    ensures Checked(AsWritten, Layout(t, b, change)) == Checked(Corrected, Layout(t, b, change))
  {
    var rs := Layout(t, b, change);
    LayoutExtentsNonNegative(t, b, change);
    assert forall k :: 0 <= k < |rs| ==> rs[k] in rs;
    CheckedAgree(rs);
  }

  /**
   * In a region of negative size they differ: a single leaf laid out with size (-1, -1)
   * is built as written, and rejected on its size by the corrected constructor.
   */
  lemma LayoutNegativeDiverges()
    ensures var rs := Layout(Tree("a", 1, "a", []), Box(0.0, 0.0, -1.0, -1.0), true);
      && Checked(AsWritten, rs) == Success([Rect(0.0, 0.0, -1.0, -1.0, "a", "a")])
      && Checked(Corrected, rs) == Failure(NegativeValue("size", (-1.0, -1.0)))
  {
    var r := Rect(0.0, 0.0, -1.0, -1.0, "a", "a");
    assert Layout(Tree("a", 1, "a", []), Box(0.0, 0.0, -1.0, -1.0), true) == [r];
    CheckedOne(AsWritten, r);
    CheckedOne(Corrected, r);
  }

  /**
   * When every interior count is the sum of its children's, as after
   * `compute_internal_counts`, every rectangle lies within the region laid out.
   */
  lemma {:induction false} LayoutWithin(t: Tree, b: Box, change: bool)
    requires CountsConsistent(t)
    requires 0.0 <= b.width && 0.0 <= b.height
    ensures forall r :: r in Layout(t, b, change) ==> Within(BoxOf(r), b)
    decreases t
  {
    if !IsLeaf(t) {
      var rss := ChildLayouts(t, b, change);
      forall r | r in Layout(t, b, change) ensures Within(BoxOf(r), b) {
        ConcatMember(rss, r);
        var i :| 0 <= i < |rss| && r in rss[i];
        var c := ChildBox(t, b, change, i);
        ChildBoxWithin(t, b, change, i);
        LayoutWithin(t.children[i], c, !change);
        assert Within(BoxOf(r), c);
      }
    }
  }

  /** Where the region of the i-th child starts: past the slices of the children before it. */
  function Start(t: Tree, b: Box, change: bool, i: nat): (real, real)
    requires i <= |t.children|
  {
    if change then (b.x + Slice(t.count, SumCounts(t.children[..i]), b.width), b.y)
    else (b.x, b.y + Slice(t.count, SumCounts(t.children[..i]), b.height))
  }

  /**
   * `create_helper` over a node object: a leaf becomes one rectangle with the region it
   * was handed; otherwise the children are laid out in turn, each in the next slice,
   * and their rectangles appended. The first rectangle the constructor, as written,
   * rejects ends it.
   */
  method CreateHelper(t: Node, x: real, y: real, width: real, height: real, change: bool)
    returns (r: Result<seq<Rect>, RectError>)
    requires t.Valid()
    ensures r == Checked(AsWritten, Layout(t.model, Box(x, y, width, height), change))
    decreases t.Repr, 1
  {
    if |t.children| == 0 {
      var rect := NewRectangleAsWritten((x, y), (width, height), t.name, t.verbose);
      assert Layout(t.model, Box(x, y, width, height), change) == [Rect(x, y, width, height, t.name, t.verbose)];
      CheckedOne(AsWritten, Rect(x, y, width, height, t.name, t.verbose));
      if rect.Failure? {
        return Failure(rect.error);
      }
      return Success([rect.value]);
    }
    ghost var m := t.model;
    ghost var b := Box(x, y, width, height);
    ghost var parts := ChildLayouts(m, b, change);
    var rectanglesList: seq<Rect> := [];
    var cx, cy := x, y;
    var i := 0;
    while i < |t.children|
      invariant 0 <= i <= |t.children|
      invariant (cx, cy) == Start(m, b, change, i)
      invariant Checked(AsWritten, Concat(parts[..i])) == Success(rectanglesList)
    {
      var rectangles;
      rectangles, cx, cy := PlaceChild(t, i, x, y, width, height, change, cx, cy);
      if rectangles.Failure? {
        LayoutStepRejected(AsWritten, parts, i, rectanglesList);
        return Failure(rectangles.error);
      }
      LayoutStepAccepted(AsWritten, parts, i, rectanglesList);
      rectanglesList := rectanglesList + rectangles.value;
      i := i + 1;
    }
    assert parts[..i] == parts;
    return Success(rectanglesList);
  }

  /**
   * One turn of `create_helper`'s loop: the i-th child, whose region starts at
   * (`cx`, `cy`), gets its share of the slicing axis and is laid out recursively;
   * the position moves on past its slice.
   */
  method PlaceChild(t: Node, i: nat, x: real, y: real, width: real, height: real, change: bool,
                    cx: real, cy: real)
    returns (rectangles: Result<seq<Rect>, RectError>, cx': real, cy': real)
    requires t.Valid() && i < |t.children|
    requires (cx, cy) == Start(t.model, Box(x, y, width, height), change, i)
    ensures rectangles == Checked(AsWritten, ChildLayouts(t.model, Box(x, y, width, height), change)[i])
    ensures (cx', cy') == Start(t.model, Box(x, y, width, height), change, i + 1)
    decreases t.Repr, 0
  {
    var st := t.children[i];
    ChildOfValid(t, i);
    ChildBoxAt(t.model, Box(x, y, width, height), change, i, cx, cy);
    cx', cy' := cx, cy;
    ghost var parts := ChildLayouts(t.model, Box(x, y, width, height), change);
    assert parts[i] == Layout(st.model, ChildBox(t.model, Box(x, y, width, height), change, i), !change);
    if change {
      var width2 := Slice(t.count, st.count, width);
      assert width2 == Slice(t.model.count, t.model.children[i].count, width);
      rectangles := CreateHelper(st, cx, cy, width2, height, !change);
      cx' := cx + width2;
    } else {
      var height2 := Slice(t.count, st.count, height);
      assert height2 == Slice(t.model.count, t.model.children[i].count, height);
      rectangles := CreateHelper(st, cx, cy, width, height2, !change);
      cy' := cy + height2;
    }
    StartNext(t.model, Box(x, y, width, height), change, i, cx, cy, cx', cy');
  }

  /** At the i-th child `create_helper`'s running position is where the i-th region starts. */
  lemma ChildBoxAt(t: Tree, b: Box, change: bool, i: nat, cx: real, cy: real)
    requires i < |t.children| && (cx, cy) == Start(t, b, change, i)
    ensures ChildBox(t, b, change, i) ==
      if change then Box(cx, cy, Slice(t.count, t.children[i].count, b.width), b.height)
      else Box(cx, cy, b.width, Slice(t.count, t.children[i].count, b.height))
  {
  }

  /** Moving the running position past the i-th child's slice gives where the next region starts. */
  lemma StartNext(t: Tree, b: Box, change: bool, i: nat, cx: real, cy: real, cx': real, cy': real)
    requires i < |t.children| && (cx, cy) == Start(t, b, change, i)
    requires change ==> cx' == cx + Slice(t.count, t.children[i].count, b.width) && cy' == cy
    requires !change ==> cx' == cx && cy' == cy + Slice(t.count, t.children[i].count, b.height)
    ensures (cx', cy') == Start(t, b, change, i + 1)
  {
    assert t.children[..i + 1] == t.children[..i] + [t.children[i]];
    SumCountsAppend(t.children[..i], t.children[i]);
    SliceAdd(t.count, SumCounts(t.children[..i]), t.children[i].count, b.width);
    SliceAdd(t.count, SumCounts(t.children[..i]), t.children[i].count, b.height);
  }

  /**
   * One turn of `create_helper`'s loop over the parts of a layout, when the part is
   * accepted: it extends, unchanged, what has been accepted so far.
   */
  lemma LayoutStepAccepted(c: Constructor, parts: seq<seq<Rect>>, i: nat, acc: seq<Rect>)
    requires i < |parts| && Checked(c, Concat(parts[..i])) == Success(acc)
    requires Checked(c, parts[i]).Success?
    ensures Checked(c, parts[i]).value == parts[i]
    ensures Checked(c, Concat(parts[..i + 1])) == Success(acc + parts[i])
  {
    var p, q := Concat(parts[..i]), parts[i];
    ConcatPrefixNext(parts, i);
    CheckedAccepted(c, p, q);
  }

  /** The same turn when the part is rejected: its rejection is that of the whole layout. */
  lemma LayoutStepRejected(c: Constructor, parts: seq<seq<Rect>>, i: nat, acc: seq<Rect>)
    requires i < |parts| && Checked(c, Concat(parts[..i])) == Success(acc)
    requires Checked(c, parts[i]).Failure?
    ensures Checked(c, Concat(parts)) == Checked(c, parts[i])
  {
    var p, q := Concat(parts[..i]), parts[i];
    ConcatPrefixNext(parts, i);
    CheckedAccepted(c, p, q);
    ConcatSplit(parts, i + 1);
    CheckedRejected(c, p + q, Concat(parts[i + 1..]));
  }

  /**
   * `compute_rectangles`: fills in the interior counts and the verbose labels of the
   * tree in place, then lays it out in the bounding rectangle at the origin, slicing
   * along x first. Within non-negative bounds the outcome is the same whichever
   * constructor, as written or as intended, checks the rectangles.
   */
  method ComputeRectangles(t: Node, boundingRecHeight: real := 1.0, boundingRecWidth: real := 1.0)
    returns (r: Result<seq<Rect>, RectError>)
    requires t.Valid()
    modifies t.Repr
    ensures t.Valid() && t.Repr == old(t.Repr)
    ensures t.model == Labelled(FillCounts(old(t.model)), None)
    ensures r == Checked(AsWritten, Layout(t.model, Box(0.0, 0.0, boundingRecWidth, boundingRecHeight), true))
    ensures 0.0 <= boundingRecWidth && 0.0 <= boundingRecHeight ==>
      r == Checked(Corrected, Layout(t.model, Box(0.0, 0.0, boundingRecWidth, boundingRecHeight), true))
  {
    var _ := ComputeInternalCounts(t);
    ComputeVerboseLabels(t, None);
    r := CreateHelper(t, 0.0, 0.0, boundingRecWidth, boundingRecHeight, true);
    if 0.0 <= boundingRecWidth && 0.0 <= boundingRecHeight {
      LayoutChecksAgree(t.model, Box(0.0, 0.0, boundingRecWidth, boundingRecHeight), true);
    }
  }

  /** Filling in counts and writing verbose labels do not interfere with each other. */
  lemma {:induction false} LabelledFillCommute(t: Tree, prefix: Option<string>)
    ensures Labelled(FillCounts(t), prefix) == FillCounts(Labelled(t, prefix))
    decreases t
  {
    if !IsLeaf(t) {
      var v := VerboseFor(prefix, t.name);
      var f := FillCounts(t);
      var l := Labelled(t, prefix);
      var lf := Labelled(f, prefix);
      var fl := FillCounts(l);
      forall i | 0 <= i < |t.children| ensures lf.children[i] == fl.children[i] {
        LabelledFillCommute(t.children[i], Some(v));
      }
      assert lf.children == fl.children;
      forall i | 0 <= i < |f.children| ensures f.children[i].count == lf.children[i].count {
        assert lf.children[i] == Labelled(f.children[i], Some(VerboseFor(prefix, f.name)));
      }
      SumCountsSameCounts(f.children, lf.children);
    }
  }

  /**
   * What `compute_rectangles` returns for any tree and a non-negative bounding
   * rectangle: no rectangle is rejected, there is one per leaf of the input in
   * left-to-right order with that leaf's name, and all lie within the bounding rectangle.
   */
  lemma ComputeRectanglesResult(m: Tree, height: real, width: real)
    requires 0.0 <= height && 0.0 <= width
    ensures var b := Box(0.0, 0.0, width, height);
      var r := Checked(AsWritten, Layout(Labelled(FillCounts(m), None), b, true));
      && r.Success?
      && |r.value| == |Leaves(m)|
      && (forall k :: 0 <= k < |r.value| ==> r.value[k].name == Leaves(m)[k].name)
      && (forall k :: 0 <= k < |r.value| ==> Within(BoxOf(r.value[k]), b))
  {
    var b := Box(0.0, 0.0, width, height);
    var l := Labelled(FillCounts(m), None);
    var rs := Layout(l, b, true);
    LayoutAccepted(AsWritten, l, b, true);
    LayoutMatchesLeaves(l, b, true);
    LabelledLeaves(FillCounts(m), None);
    FillCountsKeepsLeaves(m);
    LabelledFillCommute(m, None);
    FillCountsConsistent(Labelled(m, None));
    LayoutWithin(l, b, true);
  }
}
