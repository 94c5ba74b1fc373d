# ochart layout engine in Dafny

This project models the layout core of `ochart.js`, a d3 plug-in that draws
organisation charts, and proves properties of that model. The core is
everything between the caller's hierarchical data and the drawing code:

- **Wrapping** (`traverseTreeFirstOrder`, `firstOrderCallback`,
  `wrappingNode`). The raw tree is walked breadth-first and each node is
  wrapped with its parent, its depth and its ordered child list. The wrapped
  tree is an arena (`Tree.Tree`): node `0` is the root, and nodes are
  numbered in the order the walk wraps them.
- **Sizing** (`defaultNodeRectBuilder`). Each node gets a text orientation
  and a `[width, height]` computed from its label length, the font cell size
  and the padding.
- **Pass 1, top-down placement** (`firstOrderComputeNodeRect`, `computeRoot`,
  `findMaxParentValue`). Siblings are packed along the sibling axis with
  `interval` between them. Each node is placed `layerHeight` beyond the far
  edge of its parent and of its parent's siblings.
- **Pass 2, bottom-up correction** (`lastOrderAdjustNodePos`,
  `makeParentCenter`, `adjustNextSiblings`, `findAllPreSiblings`, `moveTree`,
  `findRightMost`/`findBottom`, `findPreSibling`/`findNextSibling`). Every
  internal node is centred over its children. When its subtree then crowds
  its next sibling, that subtree and the subtrees before it are shifted back.
- **Output lists** (`traverseTreeLastOrder`, `createNodes`, `createLinks`,
  `linksCallback`/`vertialLinksCallback` and the edge-centre helpers). These
  produce the post-order node list and the connector segments.

How the model is built:

- The two orientations are one model. `Geometry.Main`/`Cross` select the
  sibling axis and the layer axis. `Horizontal` is the top-down tree: siblings
  run along `x` and layers advance along `y`. `Vertical` is the left-right
  tree, with the axes swapped.
- Coordinates are `real`. The halves in centring and the thirds in the
  connectors are then exact.
- The node rectangles live in an `array<Rect>` indexed by node. The passes
  update it in place, as the source updates `nodeRect`. Each pass method is
  proved against a function on `rects[..]`: `PlacedRect`, `Shifted`,
  `CenterParent`, `Adjusted`, `AdjustPass`, `PostOrder`, `AllLinks`.

Modules, in dependency order:

| module | contents |
|---|---|
| `Wrappers` | `Option` |
| `Geometry` | orientation, axis selectors, the edge-centre helpers |
| `Sizing` | `Config` and the node size formulas |
| `Tree` | raw data, the wrapped arena, ancestry, `findPreSibling`/`findNextSibling` |
| `Wrap` | the breadth-first wrapping |
| `Place` | pass 1 |
| `Move` | `moveTree` and `findRightMost` |
| `Siblings` | `findAllPreSiblings` |
| `Adjust` | pass 2 and the counterexample tree |
| `Links` | the post-order walks, node list and connectors |
| `Layout` | `defaultLayout` and facts about the finished layout |

The source does not check its input. A missing root or child throws, and no
size is validated. The model's data types cannot express a missing node, so
they have no error path for it. Where the source itself throws (see
Findings), the as-written model returns `None`.

## Model

| member | source | states |
|---|---|---|
| Geometry.Translate | ochart.js:393-398 | moving a rectangle by `[dx, dy]` adds the offset to its position and keeps its size |
| Geometry.TranslateMain | ochart.js:325-334 | an offset along the sibling axis changes only the sibling-axis coordinate |
| Geometry.TopCenter | ochart.js:191-196 | the point lies on the top edge, halfway between the left and right edges |
| Geometry.BottomCenter | ochart.js:172-177 | the point lies on the bottom edge, halfway between the left and right edges |
| Geometry.LeftCenter | ochart.js:179-184 | the point lies on the left edge, halfway between the top and bottom edges |
| Geometry.RightCenter | ochart.js:185-190 | the point lies on the right edge, halfway between the top and bottom edges |
| Geometry.NearCenter | ochart.js:100-154 | the edge facing the parent: `topCenter` in a top-down tree, `leftCenter` in a left-right one |
| Geometry.FarCenter | ochart.js:100-154 | the edge facing the children: `bottomCenter` in a top-down tree, `rightCenter` in a left-right one |
| Sizing.NodeOrient | ochart.js:791-804 | a node's text runs along the tree's orientation exactly when it is the root |
| Sizing.MinLength | ochart.js:812 | the counted length is at least 5 and at least the label length, and is one of the two |
| Sizing.NodeSizeTextAxis | ochart.js:813-825 | along the text: font cell times counted length plus twice the padding; across it: one font cell plus twice the padding |
| Sizing.NodeSizePositive | ochart.js:813-825 | with positive font cells and non-negative padding, both dimensions are positive |
| Sizing.NodeSizeMonotone | ochart.js:812-825 | a longer label never makes a node shorter along its text, nor thicker across it; labels of up to 5 characters all give one size |
| Sizing.NodeSizeRootSwap | ochart.js:791-825 | the root's label-dependent extent lies along the sibling axis; every other node's lies along the layer axis |
| Tree.IndexOf | ochart.js:364 | `indexOf` returns -1 exactly when the element is absent, otherwise its first position |
| Tree.Tree.Pos | ochart.js:544 | a non-root node's position in its parent's child list holds that node |
| Tree.PreSibling | ochart.js:538-550 | there is a previous sibling exactly when the node is not the root and not a first child; it has the same parent |
| Tree.NextSibling | ochart.js:523-535 | there is a next sibling exactly when the node is not the root and not a last child; it has the same parent |
| Tree.SiblingInverse | ochart.js:523-550 | `b` is the next sibling of `a` exactly when `a` is the previous sibling of `b` |
| Tree.ChildrenSorted | ochart.js:764-767 | children are wrapped in list order, so each child list is increasing |
| Tree.SiblingsDisjoint | ochart.js:583-592 | distinct children of one node have disjoint subtrees |
| Wrap.FirstOrderCallback | ochart.js:569-592 | wrapping appends one node: the sentinel's child becomes the root at depth 0; any other node goes one level below its parent and is appended to the parent's child list, with every other list unchanged |
| Wrap.PushChildren | ochart.js:764-767 | the raw children are queued in order, each paired with the new wrapped parent |
| Wrap.WrapNext | ochart.js:751-767 | one iteration of the breadth-first loop keeps the queue aligned with the nodes still to be wrapped and wraps exactly one node |
| Wrap.TraverseTreeFirstOrder | ochart.js:745-770 | the result is a valid tree with one wrapped node per raw node, rooted at the data; each node's children wrap its raw children in order |
| Place.MaxFar | ochart.js:288-296 | the loop's maximum is at least 0 and every listed far edge, and is 0 or one of them |
| Place.MaxParentValue | ochart.js:278-297 | 0 for the root; otherwise at least the parent's far edge, and the maximum over the parent and its siblings when the parent is not the root |
| Place.MaxFarLoop | ochart.js:288-296 | the loop computes that maximum |
| Place.FindMaxParentValue | ochart.js:266-297 | `findMaxParentBottom`/`findMaxParentRight` compute the value above on the current rectangles |
| Place.PlacedRect | ochart.js:226-264 | the placed rectangle has the builder's size, the packed sibling-axis coordinate and the layer-axis coordinate `layerHeight` beyond the parent layer |
| Place.ComputeRoot | ochart.js:226-264 | `computeRoot(v)` overwrites exactly `v`'s rectangle with that placement |
| Place.ComputeRootTwice | ochart.js:215-219 | placing a node a second time against the same rectangles changes nothing |
| Place.FirstOrderComputeNodeRect | ochart.js:212-224 | every node of the subtree ends up placed, nothing outside the subtree changes, and the subtree root gets its placement against the old rectangles |
| Place.PlaceChildren | ochart.js:217-219 | the first loop places every child and keeps the node itself placed |
| Place.PlaceSubtrees | ochart.js:221-223 | the second loop places every child's subtree and keeps the node and its children placed |
| Place.DependsOutside | ochart.js:226-297 | `computeRoot(u)` reads no rectangle inside `u`'s own subtree |
| Place.PlacedRectFrame | ochart.js:226-297 | a placement depends only on the rectangles `computeRoot` reads |
| Place.PlacedRoot | ochart.js:233-262 | the root sits at the origin with its own size |
| Place.PlacedFirstChild | ochart.js:256-261 | a first child starts at its parent's sibling-axis coordinate |
| Place.PlacedSiblingGap | ochart.js:256-258 | consecutive siblings are exactly `interval` apart |
| Place.PlacedSiblingsShareCross | ochart.js:249-251 | children of one parent share their layer-axis coordinate |
| Place.PlacedBelowParent | ochart.js:249-251 | a child starts at least `layerHeight` beyond its parent's far edge, and exactly there when the parent is the root |
| Place.PlacedBelowAncestors | ochart.js:249-251 | with sane sizes and `layerHeight >= 0`, a node starts at least `layerHeight` beyond the far edge of every proper ancestor |
| Move.MoveTree | ochart.js:393-398 | exactly the nodes of the subtree are translated by the offset |
| Move.ShiftedUnion | ochart.js:323-326 | shifting two disjoint families of subtrees one after the other shifts their union |
| Move.ShiftedKeepsSizes | ochart.js:393-398 | a sibling-axis shift keeps sizes and layer-axis coordinates, and moves exactly the shifted nodes by the offset |
| Move.TrailWalkBounds | ochart.js:400-420 | the post-order walk's accumulator ends at least at its start and at every trailing edge of the subtree, and equals its start or one of those edges |
| Move.RightMostWalk | ochart.js:411-420 | the traversal with the accumulator callback computes that walk |
| Move.FindRightMost | ochart.js:400-420 | the result is at least 0 and every trailing edge in the subtree, and is 0 or one of them |
| Siblings.ClimbAsWrittenFails | ochart.js:369-387 | the loop as written throws exactly where the intended climb finds nothing, and otherwise agrees with it |
| Siblings.ClimbEmpty | ochart.js:369-387 | the climb finds nothing exactly when the node and all its ancestors below the root are first children |
| Siblings.PreSiblingsAsWrittenFails | ochart.js:357-390 | `findAllPreSiblings` as written throws exactly when the node is not the root and every ancestor below the root is a first child; otherwise it returns the intended list |
| Siblings.FindAllPreSiblings | ochart.js:357-390 | the corrected loop returns the intended list |
| Siblings.ClimbFrom | ochart.js:369-388 | the climb loop, stopped at the root, appends the climb's nodes |
| Siblings.PushAll | ochart.js:365-367 | pushing the first `n` children appends exactly that prefix |
| Siblings.PreSiblingsShape | ochart.js:357-390 | the list is the node with its earlier siblings, or the node followed by the earlier siblings of its nearest ancestor that is not a first child |
| Siblings.PreSiblingsIndependent | ochart.js:357-390 | no listed node lies in another's subtree, so `moveTree` moves each node at most once |
| Siblings.PreSiblingsCover | ochart.js:365-367 | the node's whole subtree is among the moved nodes |
| Siblings.PreSiblingsMissNext | ochart.js:318-338 | the next sibling, which the shift makes room for, is never moved |
| Siblings.LeftRootsMiss | ochart.js:369-387 | no subtree hanging before the path from the root to a node contains that node or its descendants |
| Siblings.PreSiblingsLeft | ochart.js:357-390 | every listed subtree is the node's own or one of the earlier siblings of the node or of its ancestors |
| Siblings.NextOutsideLeft | ochart.js:318-338 | the next sibling is in neither the node's subtree nor a subtree hanging before its path |
| Siblings.PreSiblingsParents | ochart.js:357-390 | every listed node's parent is a proper ancestor of the node, so centring below that parent is left alone |
| Adjust.CenterOver | ochart.js:340-354 | the new midpoint is the midpoint of the span from the first child's leading edge to the last child's trailing edge; size and layer coordinate are kept |
| Adjust.CenterParent | ochart.js:340-354 | centring `v` changes no other rectangle, keeps the size and layer coordinate of `v`, and leaves `v` centred over its children |
| Adjust.MakeParentCenter | ochart.js:340-354 | `makeParentCenter(v)` turns the rectangles into `CenterParent` of the old ones |
| Adjust.ShiftedCentered | ochart.js:340-354 | shifting whole subtrees keeps a node centred unless a shifted root is one of its children |
| Adjust.AdjustNextSiblings | ochart.js:318-338 | the rectangles become `Adjusted`: the listed subtrees shift back by the overlap when there is one, and nothing changes otherwise |
| Adjust.AdjustSeparates | ochart.js:318-338 | nothing moves when there is room; afterwards the subtree ends at least `interval` before the unmoved next sibling, and after an overlap some node ends exactly `interval` before it |
| Adjust.AdjustedAlongOnly | ochart.js:318-338 | the adjustment changes only sibling-axis coordinates |
| Adjust.AdjustedKeepsCentering | ochart.js:318-338 | the adjustment keeps every centred node centred except proper ancestors of the node |
| Adjust.LastOrderAdjustNodePos | ochart.js:299-316 | the new rectangles are `AdjustPass` of the old ones: the children's passes in order, then centring, then the adjustment against the next sibling when there is one |
| Adjust.AdjustPassCentering | ochart.js:299-316 | a leaf is left alone; otherwise every internal node of the subtree ends centred, earlier centring outside the node's ancestors is kept, and only sibling-axis coordinates change |
| Adjust.AdjustPassFrame | ochart.js:299-316 | the pass at `v` changes nothing outside the subtree of `v` and the subtrees of the earlier siblings of `v` and of its ancestors |
| Adjust.AdjustPassSeparates | ochart.js:311-315 | the pass never moves the next sibling of `v`; for an internal `v` it ends with the whole subtree of `v` at least `interval` before that sibling |
| Adjust.FindAllPreSiblingsFailsOnExample | ochart.js:357-390 | on a five-node tree placed by pass 1, centring the root's first child makes its subtree overlap; `findAllPreSiblings` as written then throws, while the intended list is that child alone |
| Adjust.ExampleClimb | ochart.js:373-387 | on that tree the written climb reaches the root and throws |
| Links.PostOrder | ochart.js:773-781 | the walk ends with the node itself |
| Links.PostOrderMembers | ochart.js:773-781 | the walk visits exactly the subtree |
| Links.PostOrderOrdered | ochart.js:773-781 | no node is visited twice or before one of its descendants |
| Links.CollectNodes | ochart.js:84-91 | the traversal with the pushing callback appends the post-order walk |
| Links.CreateNodes | ochart.js:84-91 | the node list is the post-order walk from the root |
| Links.CreateNodesComplete | ochart.js:84-91 | the node list holds every node exactly once, each after its descendants |
| Links.MiddleNear | ochart.js:156-170 | the point is level with the node's midpoint, two thirds of the way from the parent's far edge to the node |
| Links.ParentLink | ochart.js:103-109 | the stub runs from the centre of the node's near edge to that point |
| Links.ChildLink | ochart.js:111-115 | the stub runs from the centre of the far edge, two thirds of the way toward the first child's near edge |
| Links.LinksOf | ochart.js:100-154 | one stub for a non-root node, one for an internal node and one bar for two or more children |
| Links.LinksCallback | ochart.js:100-154 | the callback appends exactly the node's links |
| Links.CollectLinks | ochart.js:773-781 | the traversal appends the subtree's links in walk order |
| Links.SubtreeLinksInNodeOrder | ochart.js:93-98 | the links come out in node-list order, node by node |
| Links.CreateLinks | ochart.js:93-98 | the link list is the links of each node of the post-order node list, in order |
| Links.LinkCount | ochart.js:93-154 | there are `(n - 1)` stubs to parents, one per internal node and one bar per node with two or more children |
| Links.StubsMeet | ochart.js:128-154 | with aligned children, every stub runs straight along the layer axis, and each child's stub, the parent's stub and the bar end at one layer-axis coordinate |
| Links.StubMeetsBarMiddle | ochart.js:140-151 | a centred parent's stub ends at the middle of the bar when the first and last child have the same extent |
| Layout.DefaultLayout | ochart.js:199-210 | the wrapped tree is valid and complete; pass 1 places every node; the result is `AdjustPass` from the root on those rectangles, which changes only sibling-axis coordinates and leaves every internal node centred |
| Layout.NonRootMainSize | ochart.js:812-825 | all nodes but the root have the same sibling-axis extent |
| Layout.LayoutConnectorsJoin | ochart.js:128-154 | in the finished layout the children are aligned and the parent's stub meets the middle of the bar |
| Layout.LayoutLayers | ochart.js:249-254 | in the finished layout each node starts at least `layerHeight` beyond every proper ancestor's far edge |

## Left out

- Drawing (`defaultDraw`, `drawLinks`, `drawNodes`, ochart.js:594-734): d3 and SVG rendering, zoom and pan. These are foreign library calls.
- The `ochart(container)` entry point and the chained configuration accessors (ochart.js:31-82). The configuration is the immutable record `Sizing.Config`, passed as a parameter. `DefaultConfig` holds the defaults of ochart.js:16-27.
- `rootLength` and `nodeMargin`: no modelled code reads them.
- `lastOrderCallback`, `adjustRootByChild`, `arrayCopy`, `sum`, `isLastChild` (ochart.js:422-520, 552-567): `defaultLayout` never calls them.
- The `nodeBlock`, `childBlock`, `subTreeBlock` and `orient` fields of a wrapped node. Only the unused code above writes the blocks. A node's text orientation is not stored; `Sizing.NodeOrient` recomputes it.
- `log` (ochart.js:831-833): it does nothing.
- The pluggable label reader (`defaultNodeLabelReader`, ochart.js:736-738): each raw node carries its label as a `string`. Its length is a count of characters, not of UTF-16 code units.
- Pluggable `layout`, `draw` and `nodeRectBuilder`: the model fixes the defaults.
- The generic callbacks of `traverseTreeFirstOrder` and `traverseTreeLastOrder` are modelled through their uses: `Wrap.TraverseTreeFirstOrder` with `firstOrderCallback`, and `Links.CollectNodes`, `Links.CollectLinks`, `Move.MoveTree` and `Move.RightMostWalk` with theirs. `Links.PostOrder` states the visiting order they share.
- Floating point: coordinates are exact reals, so rounding in the halves and thirds is not modelled.
- A null root or a null entry in a `children` list: the source does not handle it (it throws on the first field access), and the data types cannot express it. A node without `children` is handled: `isEmpty(undefined)` is true (ochart.js:783-785), so the breadth-first walk queues nothing for it (ochart.js:754-767) and wraps it as a leaf with `children: []` (ochart.js:569-580). The model's `RawNode(name, [])` is that case.
- `isEmpty` (ochart.js:783-785) is `Tree.IsEmpty`, a plain length test. It has no contract of its own.
- Adjust.AdjustPassSeparates: the separation is stated for `v` and its next sibling at the end of the pass at `v`. It is not stated that siblings end up non-overlapping across the whole tree, because the source does not achieve that. Take a node `q` with an earlier sibling `p` and children `a` and `b`, where `b` has an internal first child `f0` whose subtree, once centred, crowds `f0`'s next sibling. `findAllPreSiblings(f0)` climbs to `b` and lists `f0` and `a`, so the subtree of `a` moves towards `p`'s subtree. Nothing later compares `a` with `p`'s subtree, so the two can overlap. No counterexample with numbers is part of the model.
- Move.FindRightMost and Move.TrailWalkBounds: the result is `max(0, …)` as in the source. For a subtree lying entirely before 0, the result is 0 and no node attains it.

## Findings

| source | as written | input that shows it | evidently intended | confidence | as-written member | corrected member |
|---|---|---|---|---|---|---|
| ochart.js:357-390 | When the node is a first child, the climb looks for an ancestor with earlier siblings. It only stops at the `parentOfRoot` flag, which no wrapped node carries. On reaching the root it reads the root's parent (`false`), takes its undefined `children` and calls `indexOf` on it, which throws. | Root R with children A and B; A with children C and D; default configuration. Pass 1 puts A at 0, B at 61 and C, D at 0 and 61, each 46 wide. Centring A over C and D gives x = 30.5. A's subtree then ends at 107, so the offset is 61 − 107 − 15 = −61 and `findAllPreSiblings(A)` is called. A is a first child of the root, so the climb throws. | The climb ends at the root and returns what it has collected, here `[A]`. | not executed | Siblings.PreSiblingsAsWrittenFails, Adjust.FindAllPreSiblingsFailsOnExample | Siblings.FindAllPreSiblings |
