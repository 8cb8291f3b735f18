# stacked-tree core, modelled in Dafny

The stacked-tree front end shows a dendrogram: a rooted tree whose merge
nodes carry a `distance`. The user can prune the tree at a distance cutoff
and highlight the branches whose leaves match a search pattern. Most of the
script is DOM and D3 glue. This project models the tree logic in it:

- **leaf collection** (`getAllLeaves`): the flat, left-to-right list of
  fresh leaf records `{name, distance, children: []}` below a node;
- **cutoff pruning** (`cutTree`): a preorder walk that replaces the children
  of every node whose distance is at or below the threshold by its leaf
  records, without descending further;
- **link reduction** (`reduceLinks`): for each non-root node with children,
  the link from its parent and the link to its farthest child (largest `y`);
- **branch matching** (the link filter of `searchTree`);
- **cutoff bounds** (the min/max loop of `initialiseUI`).

Layout:

| file | module | contents |
|---|---|---|
| wrappers.dfy | Wrappers | `Option` |
| hierarchy.dfy | Hierarchy | the `Node<Pos>` datatype, `Leaves` (leaf collection), `Preorder` (reference enumeration), their lemmas |
| traversal.dfy | Traversal | D3's breadth-first `each` / `descendants()` order as a queue walk, proved to visit every node once |
| leaf_collector.dfy | LeafCollector | `getAllLeaves` as a recursive method with the array threaded as an accumulator |
| cutoff_pruner.dfy | CutoffPruner | `Cut` (the pruned tree), the method `CutTree`, pruning lemmas |
| link_reducer.dfy | LinkReducer | farthest child, `Links`, the method `ReduceLinks`, count and shape lemmas |
| branch_matcher.dfy | BranchMatcher | the search filter and its relation to the reduced links |
| cutoff_range.dfy | CutoffRange | the cutoff min/max scan, and the finding below |

One datatype serves both trees of the script. `Node<()>` is the raw JSON
data. `Node<real>` is the hierarchy after layout, where `pos` is the node's
`y` coordinate. A distance is `Option<real>`: `None` when the field is
absent. `children` is always present, and an empty sequence marks a leaf.
The leaf record of a childless node equals the node itself, so `Leaves`
also gives D3's `node.leaves()` on the positioned tree.

Some of the code's behaviour is easy to misread:

- `cutTree` tests `node.distance <= threshold && node.children`. An empty
  array is truthy in JavaScript. So a childless node whose distance is at
  or below the threshold is NOT skipped: it gains one child, a copy of
  itself (`CutoffPruner.LeafAtThresholdGainsSelfCopy`). The leaf sequence is
  still unchanged (`CutoffPruner.CutPreservesLeaves`).
- A node without a distance never collapses, the root included. A tree
  collapses to one level only if its root carries a distance at or below
  the threshold (`CutoffPruner.RootCollapseFlattens`).
- When several children tie for the largest `y`, the farthest child is the
  LAST of them, not the first. The fold keeps `prev` only when it is
  strictly greater (`LinkReducer.FarthestIsLast`).
- Search matching is whatever `name.match(search)` does. The regular
  expression has no case-insensitive flag. Here it is a parameter
  `matches(name, pattern)`, so the model makes no claim about case.
- D3's `each` and `descendants()` are breadth first, so `reduceLinks`
  emits its pairs level by level, not in preorder.

## Model

| member | source | states |
|---|---|---|
| Hierarchy.Leaves | stacked-tree/app/stacked-tree.js:255-273 | the leaf collection of any node is non-empty and every record in it has empty `children` |
| Hierarchy.LeafRecord | stacked-tree/app/stacked-tree.js:259-263 | the pushed record is childless and copies the node's name and distance; for a childless node it equals the node |
| Hierarchy.LeavesAreChildlessPreorder | stacked-tree/app/stacked-tree.js:255-273 | getAllLeaves returns exactly the childless nodes of the subtree, one record each, in left-to-right preorder |
| Hierarchy.LeavesOfLeaf | stacked-tree/app/stacked-tree.js:258-264 | for a childless node the result is the singleton holding that node's own copy |
| Hierarchy.LeavesOfChild | stacked-tree/app/stacked-tree.js:266-268 | every leaf below a child is a leaf of its parent |
| LeafCollector.GetAllLeaves | stacked-tree/app/stacked-tree.js:255-273 | the method returns the leaf collection of the node |
| LeafCollector.CollectLeaves | stacked-tree/app/stacked-tree.js:257-269 | `_getLeaves` appends to the shared array exactly the leaf records below the node, in order |
| CutoffPruner.Cut | stacked-tree/app/stacked-tree.js:280-293 | cutTree returns the node it was given: name, distance and layout are unchanged, only `children` may differ |
| CutoffPruner.Collapses | stacked-tree/app/stacked-tree.js:282 | an absent distance never collapses; a present one collapses exactly when it is at or below the threshold, whatever the children (an empty array is truthy) |
| CutoffPruner.CutAll | stacked-tree/app/stacked-tree.js:286-288 | the walk is applied to each child in place, keeping the number and order of children |
| CutoffPruner.CutTree | stacked-tree/app/stacked-tree.js:280-293 | the recursive method with its loop over children computes the pruned tree |
| CutoffPruner.CutPreservesLeaves | stacked-tree/app/stacked-tree.js:282-288 | pruning keeps the ordered sequence of leaf records: getAllLeaves(cutTree(T, t)) == getAllLeaves(T), quirk case included |
| CutoffPruner.CutWithoutCollapseIsIdentity | stacked-tree/app/stacked-tree.js:282-288 | if no node has a distance at or below the threshold (absent distances never qualify), the tree is unchanged |
| CutoffPruner.LeafAtThresholdGainsSelfCopy | stacked-tree/app/stacked-tree.js:282-284 | a childless node with distance at or below the threshold gains one child, a copy of itself |
| CutoffPruner.RootCollapseFlattens | stacked-tree/app/stacked-tree.js:282-284 | a root at or below the threshold ends with children == getAllLeaves(root), and the whole tree becomes the root over its leaf records |
| CutoffPruner.CollapsedNodesAreFlat | stacked-tree/app/stacked-tree.js:282-284 | in the pruned tree every node at or below the threshold has only childless children: the walk does not descend into a flattened node |
| CutoffPruner.CutIdempotent | stacked-tree/app/stacked-tree.js:280-293 | pruning a pruned tree again at the same threshold changes nothing |
| CutoffPruner.CutKeepsPayloads | stacked-tree/app/stacked-tree.js:283-288 | every node of the pruned tree has the name and distance of some node of the original |
| CutoffPruner.CutExample | stacked-tree/app/stacked-tree.js:280-293 | worked example: {root 10: [A 4: [leaf1, leaf2], leaf3]} is unchanged at 4 and becomes root over [leaf1, leaf2, leaf3] at 10 |
| Traversal.BreadthFirst | stacked-tree/app/stacked-tree.js:137 | the breadth-first walk makes one visit per node the queue stands for |
| Traversal.BreadthFirstIsPermutation | stacked-tree/app/stacked-tree.js:137 | the nodes the walk visits are a permutation of the preorder of the queued trees |
| Traversal.Each | stacked-tree/app/stacked-tree.js:137 | `root.each` calls its callback once per node of the tree, the root first and without a parent |
| Traversal.Descendants | stacked-tree/app/stacked-tree.js:90 | `descendants()` has one entry per node of the tree, the root first |
| Traversal.EachVisitsEveryChild | stacked-tree/app/stacked-tree.js:137 | every child of every node of the tree is visited by `each` with that node as its parent |
| Traversal.DescendantsArePreorder | stacked-tree/app/stacked-tree.js:90 | `descendants()` lists every node of the tree exactly once |
| Traversal.EachParents | stacked-tree/app/stacked-tree.js:137-138 | in `root.each`, only the first visit (the root) lacks a parent, and no later visit is the root, so `node !== root` is "has a parent" |
| LinkReducer.Farthest | stacked-tree/app/stacked-tree.js:140-142 | the reduce returns one of the children |
| LinkReducer.FarthestIsMaximal | stacked-tree/app/stacked-tree.js:140-142 | the farthest child's `y` is at least that of every child |
| LinkReducer.FarthestIsLast | stacked-tree/app/stacked-tree.js:140-142 | every child after the farthest one has strictly smaller `y`: on ties the last maximal child wins |
| LinkReducer.FarthestExample | stacked-tree/app/stacked-tree.js:140-142 | children with y = 5, 9, 3: the farthest is the second |
| LinkReducer.FarthestTieExample | stacked-tree/app/stacked-tree.js:140-142 | two children with equal `y`: the second is chosen |
| LinkReducer.Emitted | stacked-tree/app/stacked-tree.js:138-146 | one visit pushes nothing or two links; two exactly when it has a parent and children: parent -> node, then node -> one of its children |
| LinkReducer.ReduceLinks | stacked-tree/app/stacked-tree.js:133-149 | the method's loop over the `each` visits returns the reduced links |
| LinkReducer.Links | stacked-tree/app/stacked-tree.js:133-149 | the value reduceLinks returns; it always holds an even number of links |
| LinkReducer.LinksCount | stacked-tree/app/stacked-tree.js:137-147 | reduceLinks emits exactly 2 links per non-root node that has children |
| LinkReducer.LinksShape | stacked-tree/app/stacked-tree.js:137-147 | the links come in (parent -> node, node -> farthest child) pairs; every link goes from a node of the tree to one of its children, so the root is never a target |
| LinkReducer.LinksCover | stacked-tree/app/stacked-tree.js:137-147 | every non-root node with children has its pair in the output: the link from its parent and the link to its farthest child |
| BranchMatcher.MatchingLinks | stacked-tree/app/stacked-tree.js:44-49 | a link is kept iff some leaf of its target has a name satisfying the match; nothing is added |
| BranchMatcher.HasMatchingLeaf | stacked-tree/app/stacked-tree.js:45-46 | a link target passes when some leaf below it has a matching name; a childless target passes exactly when its own name matches |
| BranchMatcher.SearchTree | stacked-tree/app/stacked-tree.js:36-49 | no loaded data or an empty search flags nothing; otherwise a link is flagged iff some leaf of its target matches |
| BranchMatcher.FlaggedTrunkFlagsItsEntry | stacked-tree/app/stacked-tree.js:44-49 | over reduceLinks' output, if (node -> farthest child) is flagged then (parent -> node) is flagged |
| CutoffRange.ScanDistances | stacked-tree/app/stacked-tree.js:87-95 | the loop ends with the least and greatest of the starting values and all truthy distances; absent and zero distances are skipped |
| CutoffRange.HasTruthyDistance | stacked-tree/app/stacked-tree.js:91 | an absent or zero distance is falsy and skipped; any other distance is taken |
| CutoffRange.InitialiseCutoff | stacked-tree/app/stacked-tree.js:87-95 | cutoffMin <= and cutoffMax >= every truthy distance; cutoffMin is a node's distance when a truthy finite one exists; cutoffMax is one when some truthy distance is at least Number.MIN_VALUE; with none, both keep Number.MAX_VALUE / Number.MIN_VALUE |
| CutoffRange.CutoffMaxMissesNegativeDistances | stacked-tree/app/stacked-tree.js:88-92 | for a tree whose only distance is -1, cutoffMax stays Number.MIN_VALUE, which no node carries |
| CutoffRange.InitialiseCutoffCorrected | stacked-tree/app/stacked-tree.js:87-95 | starting the maximum at -Number.MAX_VALUE, both bounds are node distances whenever a truthy finite distance exists |

## Left out

- DOM event wiring, `resetZoom` and the zoom behaviour (stacked-tree.js:4-23, 241-245): user-interface code.
- `loadFile` (stacked-tree.js:59-78): asynchronous fetch and JSON parsing, which is I/O.
- `showStackSelection`, `renderLinks`, `renderNodes`, `renderGraph` and the colouring in `searchTree`: D3 selections and drawing.
- `elbow_h` / `elbow_v`: SVG path strings built from JavaScript number formatting.
- The D3 library: `d3.hierarchy`, the `d3.stackedtree` layout and `node.leaves()`. The positioned tree is an input with `y` already set. Its traversal order follows D3's documented breadth-first `each`. `leaves()` is the model's own `Leaves`.
- Regular-expression semantics of `String.prototype.match`: `matches` is a parameter. An invalid pattern makes `match` throw; that exception is not modelled.
- The `JSON.parse(JSON.stringify(...))` copy before pruning (stacked-tree.js:303-305): Dafny datatypes are values already.
- CutoffPruner.CutTree: models the in-place rewrite of `node.children` on values. Each call returns the rewritten node, and its parent stores it. Aliasing is not modelled; the caller prunes a fresh copy, so none can be observed.
- LeafCollector.CollectLeaves: the closure's `leaves` array is threaded as an in/out parameter, not a shared object.
- BranchMatcher.MatchingLinks: states which links are kept and that none is added, not that the kept links keep their relative order.
- A `children` field that is missing, and trees with cycles: the model's `children` is always a sequence and datatypes are finite. The code checks neither; `getAllLeaves` would throw on a missing `children`.
- Numbers: distances, thresholds and `y` are `real`. NaN, infinities and rounding are not modelled. A JSON `null` distance (which JavaScript compares as 0) is not modelled: a distance is absent or a number. The threshold arrives from the slider as a string that JavaScript converts to a number; the model takes the number.
- `Number.MIN_VALUE` is written as 5e-324, the decimal JavaScript prints for it and reads back as it. The exact double is 2^-1074. Only its being a tiny positive number matters here.
- Setting the slider's `min`, `max` and `step`, and `renderGraph` at the end of `initialiseUI`: DOM updates.

## Findings

| source | as written | input that shows it | evidently intended | confidence | as-written member | corrected member |
|---|---|---|---|---|---|---|
| stacked-tree/app/stacked-tree.js:88 | `cutoffMax` starts at `Number.MIN_VALUE`, the smallest positive double, not the most negative number | a tree whose only distance is -1: `cutoffMax` stays 5e-324, above every distance and carried by no node | start the maximum at `-Number.MAX_VALUE` (or `-Infinity`), so it ends as the largest distance | not executed; the sentinel is wrong, but dendrogram distances are rarely negative, so it seldom shows | CutoffRange.CutoffMaxMissesNegativeDistances | CutoffRange.InitialiseCutoffCorrected |
