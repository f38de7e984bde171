# Slice-and-dice treemap, modelled in Dafny

This project models the treemap core of `Treemaps/treemap.py`. The program draws a
treemap of a labelled, weighted tree, such as employees broken down by company, gender
and race. Each node has a label, a count and a verbose (full path) label. The model
covers five operations:

- `compute_internal_counts` sets every interior node's count, in place, to the sum of
  its children's counts. It returns the root's count.
- `compute_verbose_labels` writes every node's verbose label in place:
  - the root gets `""`;
  - a child of the root gets its own label;
  - any deeper node gets its parent's verbose label, `": "` and its own label.
- `prune_tree` builds a fresh copy of the tree. The copy leaves out every subtree below
  the root whose label is in a list of values to discard. The input is not changed.
- `Rectangle` with `validate_tuple_param` is the rectangle record. Its constructor
  asserts that the coordinates are non-negative.
- `compute_rectangles` / `create_helper` fill in counts and labels, then lay the tree out
  in a bounding rectangle:
  - a node's region is cut into one slice per child, in proportion to the children's
    counts;
  - slicing alternates between x and y at each level;
  - every leaf becomes one rectangle.

## Files and modules

- `wrappers.dfy`, module `Wrappers`: `Option` and `Result`.
- `trees.dfy`, module `Trees`, has two forms of a tree:
  - `Tree` is the value of a tree. Its name field stands for the Python `label`, which
    is a reserved word in Dafny.
  - `Node` is the mutable tree object. It has the fields `name`, `count`, `verbose` and
    `children`, a ghost footprint `Repr` and a ghost `model: Tree`. `Valid()` ties
    `model` to the fields and makes the children a tree owned by the node.
  - The module also has sums of counts, concatenation, leaves and paths.
- `counts.dfy`, module `InternalCounts`:
  - the specification function `FillCounts` and its lemmas;
  - the in-place method `ComputeInternalCounts`, which keeps the Python code's accumulator
    and writes `t.count` inside the loop.
- `labels.dfy`, module `VerboseLabels`:
  - the specification `Labelled` and its lemmas;
  - the in-place method `ComputeVerboseLabels`, with the Python code's three-way test on
    the prefix.
- `prune.dfy`, module `Pruning`:
  - the specification `Pruned`;
  - the method `PruneTree`, which builds new `Node`s with `AddChild` and has no
    `modifies` clause.
- `rectangles.dfy`, module `Rectangles`:
  - `Rect`, the parameter check, and the constructor both as written and as intended;
  - `Checked`, which models the first failing assertion aborting the layout. It takes
    the constructor as a parameter: `AsWritten` or `Corrected`.
- `treemap.dfy`, module `Treemap`:
  - the layout in closed form (`Layout`), and its lemmas;
  - the methods `CreateHelper` and `ComputeRectangles` over `Node`s. `CreateHelper`
    keeps the Python code's running `x`/`y` position, and checks each rectangle with
    the constructor as written;
  - the end-to-end lemma `ComputeRectanglesResult`.

Each in-place method is proved against its specification function, for example
`t.model == FillCounts(old(t.model))`. The properties are lemmas about those functions.
Floating-point arithmetic is modelled with exact `real`s.

## Model

| member | source | states |
|---|---|---|
| Trees.Node.constructor | Treemaps/treemap.py:137 | A new node is valid and has a fresh footprint. It has the given label and count, the verbose label "" and no children. |
| Trees.Node.AddChild | Treemaps/treemap.py:141 | `add_child` appends the subtree as the last child. The node stays valid and its footprint grows by exactly the subtree's. |
| InternalCounts.FillCounts | Treemaps/treemap.py:84-92 | The reference definition of the pass. A node keeps its label, verbose label and number of children. A leaf keeps its count, and an interior node's count is the sum of its filled-in children's counts. |
| InternalCounts.ComputeInternalCounts | Treemaps/treemap.py:84-92 | The tree afterwards is `FillCounts` of the tree before. The result is the root's new count: a leaf's own count, otherwise the sum over its children. The footprint is unchanged. |
| InternalCounts.CountChild | Treemaps/treemap.py:88-90 | One turn of the loop: one more child is filled in, and `t` and the other children are untouched. The returned value is that child's filled-in count. |
| InternalCounts.FillCountsConsistent | Treemaps/treemap.py:76-77 | After the pass, every node with children has a count equal to the sum of its children's counts. |
| InternalCounts.FillCountsKeepsShape | Treemaps/treemap.py:84-92 | Only counts change. Labels, verbose labels and the shape are as before. |
| InternalCounts.FillCountsKeepsLeaves | Treemaps/treemap.py:68-69 | The leaves and their counts are exactly as before, in order. |
| InternalCounts.FillCountsOfConsistent | Treemaps/treemap.py:84-92 | A tree whose interior counts are already sums is left unchanged. |
| InternalCounts.FillCountsIdempotent | Treemaps/treemap.py:203 | Running the pass twice in a row changes nothing that the first run did not already change. |
| InternalCounts.FillCountsIsLeafTotal | Treemaps/treemap.py:66-92 | A node's filled-in count is the total of its leaves' counts. |
| InternalCounts.ChildrenLeafTotal | Treemaps/treemap.py:87-90 | After k turns, the accumulator equals the total over the leaves of the first k children. |
| VerboseLabels.VerboseFor | Treemaps/treemap.py:110-115 | The three-way rule on the prefix: no prefix gives "". Otherwise the label is the node's own label, after the prefix and `": "` when the prefix is non-empty, so its length is that of those parts. |
| VerboseLabels.VerboseForParts | Treemaps/treemap.py:112-115 | Below the root, a verbose label ends with the node's own label. Below a non-empty prefix, it starts with that prefix and `": "`. |
| VerboseLabels.Labelled | Treemaps/treemap.py:110-118 | The reference definition of the pass. A node keeps its label, count and number of children, and its verbose label follows the three-way rule on the prefix. |
| VerboseLabels.ComputeVerboseLabels | Treemaps/treemap.py:110-118 | The tree afterwards is `Labelled` of the tree before, from the given prefix (`None` for the root), and no other field changes. The footprint is unchanged. |
| VerboseLabels.LabelChild | Treemaps/treemap.py:117-118 | The recursive call labels one more child below the parent's verbose label, and leaves `t` and the other children untouched. |
| VerboseLabels.LabelledKeepsRest | Treemaps/treemap.py:110-118 | Only verbose labels change. Labels, counts and the shape are kept. |
| VerboseLabels.LabelledOverwrites | Treemaps/treemap.py:110-115 | Every node's verbose label is written: the result does not depend on the old verbose labels. |
| VerboseLabels.LabelledPaths | Treemaps/treemap.py:116-118 | Each path of the tree is a path of the result, with the same labels along it. |
| VerboseLabels.LabelledBelowPrefix | Treemaps/treemap.py:114-118 | Below a non-empty prefix `p`, a node's verbose label is `p`, `": "` and the labels on the path to it joined by `": "`. |
| VerboseLabels.VerboseIsJoinedPath | Treemaps/treemap.py:97-101 | From the root, a node's verbose label is the labels on the path to it, joined by `": "`. So the root gets "" and the path Google, female, white gets "Google: female: white". |
| VerboseLabels.VerboseFromParent | Treemaps/treemap.py:110-118 | Node by node: a child's verbose label follows from its parent's by the three-way rule (`""` → own label, otherwise parent + `": "` + own label). |
| VerboseLabels.LabelledLeaves | Treemaps/treemap.py:117-118 | The leaves keep their number, order and labels. |
| Pruning.Survivors | Treemaps/treemap.py:139-141 | The kept children are no more than the children, and none of them has a discarded label. |
| Pruning.SurvivorsMembers | Treemaps/treemap.py:139-140 | A child is kept exactly when its label is not among the values to discard. |
| Pruning.SurvivorsPlus | Treemaps/treemap.py:139-141 | Kept children keep their original order. |
| Pruning.SurvivorsOfKept | Treemaps/treemap.py:139-141 | If no child's label is discarded, every child is kept, in place. |
| Pruning.Pruned | Treemaps/treemap.py:137 | The copy's root has the input root's label and count. |
| Pruning.PrunedPrefixNext | Treemaps/treemap.py:139-141 | Each turn of the loop appends the child's pruned copy unless the child's label is discarded. |
| Pruning.PrunedNoneDiscarded | Treemaps/treemap.py:125-126 | No node of the copy below the root has a discarded label. |
| Pruning.PrunedNothing | Treemaps/treemap.py:137-143 | With nothing to discard, the copy equals the input in labels, counts and shape. |
| Pruning.PrunedIdempotent | Treemaps/treemap.py:137-143 | Pruning the copy again with the same values changes nothing. |
| Pruning.PrunedNodesFromInput | Treemaps/treemap.py:137-141 | Every node of the copy is a node of the input at the same depth, with the same label and count. |
| Pruning.PruneTree | Treemaps/treemap.py:123-143 | The result is a valid tree of freshly allocated nodes denoting `Pruned` of the input. The method modifies nothing, so the input is unchanged. |
| Rectangles.ValidateTupleParam | Treemaps/treemap.py:151-153 | A pair passes exactly when both values are >= 0. Otherwise the error names the parameter and gives its value. |
| Rectangles.NewRectangleAsWritten | Treemaps/treemap.py:161-174 | As written: the rectangle is built exactly when the origin is non-negative, whatever the size. |
| Rectangles.SizeUncheckedAsWritten | Treemaps/treemap.py:163-164 | A negative size passes the constructor as written and is rejected by the corrected one. |
| Rectangles.NewRectangle | Treemaps/treemap.py:161-174 | Corrected: built exactly when origin and size are both non-negative, carrying origin, size, label and verbose label. The error names the origin first, then the size. |
| Rectangles.Construct | Treemaps/treemap.py:161-174 | Building with either constructor succeeds exactly when it accepts the rectangle: as written, a non-negative origin; corrected, a non-negative origin and size. The built rectangle is the one described, and a negative origin is reported as "origin". |
| Rectangles.Checked | Treemaps/treemap.py:216 | A list of rectangles passes exactly when the constructor accepts every one, and then comes back unchanged. A rejected first rectangle gives that rectangle's error. |
| Rectangles.CheckedAgree | Treemaps/treemap.py:163-164 | For rectangles with no negative size, the constructor as written and the corrected one give the same outcome, including the error reported. |
| Rectangles.CheckedPlus | Treemaps/treemap.py:234 | Appending lists: the first failure wins, otherwise the concatenation is accepted. |
| Rectangles.CheckedOne | Treemaps/treemap.py:216 | A leaf's single rectangle is accepted, as itself, exactly when the constructor accepts it; otherwise the constructor's error is the outcome. |
| Rectangles.CheckedRejected | Treemaps/treemap.py:234 | A rejected rectangle rejects everything appended after it. |
| Rectangles.CheckedAccepted | Treemaps/treemap.py:234 | After accepted rectangles, the outcome is that of what follows. |
| Treemap.Slice | Treemaps/treemap.py:219-231 | The share of an extent held by a child: 0 when the parent's count is 0, otherwise proportional, so that share times total is part times extent. |
| Treemap.SliceAdd | Treemaps/treemap.py:222-225 | Shares add up: the share of a plus the share of b is the share of a + b. |
| Treemap.SliceWhole | Treemaps/treemap.py:222-223 | A positive total's whole share is the whole extent. |
| Treemap.SliceBounds | Treemaps/treemap.py:222-223 | Shares are non-negative and grow with the part. |
| Treemap.SliceWithin | Treemaps/treemap.py:222-225 | Consecutive shares of a total fit inside the extent. |
| Treemap.ChildBoxes | Treemaps/treemap.py:217-233 | One region per child. A parent of count 0 gives every child a slice of width 0 (along x) or height 0 (along y). |
| Treemap.TotalExtentPrefix | Treemaps/treemap.py:225 | The first k slices together are the share of the first k children's counts. |
| Treemap.ChildBoxesFollow | Treemaps/treemap.py:217-233 | Along x, the children share the parent's y and height and follow one another from the parent's x. Along y, the same with the axes exchanged. |
| Treemap.ChildBoxNext | Treemaps/treemap.py:225 | Each child's slice starts where the previous one ends. |
| Treemap.ChildBoxesCover | Treemaps/treemap.py:218-233 | If the parent's count is positive and equals the sum of its children's, the slices add up to the parent's width (along x) or height (along y). |
| Treemap.ChildBoxWithin | Treemaps/treemap.py:217-233 | With consistent counts, each child's region lies within its parent's. |
| Treemap.ChildBoxNonNegative | Treemaps/treemap.py:217-233 | A non-negative region hands out non-negative regions. |
| Treemap.Layout | Treemaps/treemap.py:213-236 | The reference definition of the layout. It is never empty, and a leaf gives exactly one rectangle with the region it was handed, its label and its verbose label. |
| Treemap.LayoutMatchesLeaves | Treemaps/treemap.py:213-236 | One rectangle per leaf, in left-to-right order, with that leaf's label and verbose label. A single leaf gets exactly the region it was handed. |
| Treemap.LayoutNonNegative | Treemaps/treemap.py:215-233 | Laid out in a non-negative region, every rectangle is non-negative. |
| Treemap.LayoutAccepted | Treemaps/treemap.py:216 | In a non-negative region every rectangle is accepted, by either constructor, and the rectangles come back as they are. |
| Treemap.LayoutExtentsNonNegative | Treemaps/treemap.py:217-233 | In a region of non-negative size, wherever it lies, no rectangle has a negative size. |
| Treemap.LayoutChecksAgree | Treemaps/treemap.py:163-164 | In a region of non-negative size, the layout has the same outcome with the constructor as written and with the corrected one. |
| Treemap.LayoutNegativeDiverges | Treemaps/treemap.py:163-164 | In a region of size (-1, -1), a single leaf's rectangle is built as written and rejected on its size by the corrected constructor. |
| Treemap.LayoutWithin | Treemaps/treemap.py:217-233 | With consistent counts, every rectangle lies within the region laid out. |
| Treemap.CreateHelper | Treemaps/treemap.py:208-236 | The result is the `Layout` of the node's tree in the given region, checked by the constructor as written. A leaf gives its single rectangle. Otherwise the children's rectangles come in order. The first rejected rectangle ends the call. |
| Treemap.PlaceChild | Treemaps/treemap.py:218-233 | One turn of the loop: the child is laid out in the region the layout assigns it, and the running position moves past its slice. |
| Treemap.ChildBoxAt | Treemaps/treemap.py:224 | The running x/y at the i-th child is where the i-th region starts. |
| Treemap.StartNext | Treemaps/treemap.py:225 | `x += width2` (`y += height2`) gives where the next region starts. |
| Treemap.LayoutStepAccepted | Treemaps/treemap.py:234 | `rectangles_list += rectangles` extends the accepted prefix of the layout. |
| Treemap.LayoutStepRejected | Treemaps/treemap.py:224 | A rejected child layout is the outcome of the whole call. |
| Treemap.ComputeRectangles | Treemaps/treemap.py:190-206 | The tree afterwards has its counts filled and its labels written from the root. The result is its layout in the bounding rectangle at (0, 0), slicing along x first, checked by the constructor as written. With non-negative bounds, the outcome is the same as with the corrected constructor. |
| Treemap.LabelledFillCommute | Treemaps/treemap.py:203-204 | Filling in counts and writing verbose labels commute. |
| Treemap.ComputeRectanglesResult | Treemaps/treemap.py:190-206 | For any tree and non-negative bounds, no rectangle is rejected by the constructor as written. There is one rectangle per leaf of the input, in order and with that leaf's label, and every rectangle lies within the bounding rectangle. |

## Left out

- `load_diversity_data`, `cmd` and its `click` options, and `drawing.draw_rectangles`: file input, command-line handling and rendering.
- `Rectangle.__str__` / `__repr__`: text formatting of floats.
- The type and `None` checks of `validate_tuple_param` and `Rectangle.__init__` (lines 147-149, 165-169): Dafny's types rule those cases out. With the corrected size check, the `isinstance(..., float)` test would also reject the integer `0` that `create_helper` uses as the slice of a zero-count parent (lines 220 and 228). The model treats it as `0.0`.
- Floating-point rounding in `st.count / t.count * width`: shares are exact `real`s, and counts are unbounded naturals.
- The `tree` module (`tree.Tree`, `add_child`, `data_to_tree`) is not part of this model. `Node` stands in for its objects. A new node's verbose label is taken to be `""`, which the pruned copy therefore carries.
- `num_children` is read as an attribute at lines 84, 116 and 138 and called at line 215. The model reads all four as "has children". If `num_children` is a method, line 84's `== 0` never holds and lines 116 and 138 are always true. A childless node's loop then runs zero times, so the results agree with the model. If it is a plain value, the call at line 215 raises `TypeError` on every call of `create_helper`. The model does not reproduce that.
- The other programs of the repository are not part of this model: the polling-place simulation, linear regression, epidemic modelling and Schelling's segregation model.
- VerboseLabels.VerboseIsJoinedPath: it is stated only for paths whose first node below the root has a non-empty label. A child of the root labelled `""` passes `""` down, so its children start a fresh path label. `VerboseFromParent` and `LabelledBelowPrefix` cover that case.
- Treemap.CreateHelper: the integer `0` of lines 220 and 228 is not distinguished from `0.0`. The method computes the share through `Slice`, which is the same `if t.count == 0 then 0 else st.count / t.count * width`.
- Aborting assertions (`AssertionError`) are modelled as a `Failure` result in place of an exception.

## Findings

| source | as written | input that shows it | evidently intended | confidence | as-written member | corrected member |
|---|---|---|---|---|---|---|
| Treemaps/treemap.py:164 | `validate_tuple_param(origin, "size")` validates the origin a second time, so `size` is never checked | origin (0.0, 0.0), size (-1.0, -1.0): the rectangle is built | `validate_tuple_param(size, "size")`, which rejects a negative width or height | high (not executed) | Rectangles.NewRectangleAsWritten, Rectangles.SizeUncheckedAsWritten, Treemap.LayoutNegativeDiverges | Rectangles.NewRectangle, Treemap.LayoutChecksAgree |

`CreateHelper` and `ComputeRectangles` are stated with the constructor as written, so a region of negative size is laid out as the Python code lays it out. `Treemap.LayoutChecksAgree` proves that with non-negative bounds, such as the default 1.0 by 1.0 that `cmd` uses at line 268, this outcome is the corrected constructor's. `Treemap.LayoutNegativeDiverges` shows where the two part.
