# Fortune's sweep of ES6-Voronoi, modelled in Dafny

This project models the core of the ES6 port of Raymond Hill's Voronoi library. `Voronoi.compute` takes a set of sites and a bounding box. It sweeps a horizontal line down the plane (increasing y), keeping a *beachline* of parabolic arcs and a queue of *circle events*, both in threaded red-black trees. It then connects and clips the edges to the box and closes the cells along the border. The model covers five layers:

- **The threaded red-black tree** (`RBTree.js`, `RBNode.js`).
  - It is a positional tree, proved against its in-order sequence and the red-black invariants.
  - Nodes are arena ids, and the tree shape is a value (`RBNodes.Tree`).
  - A `parent` link is a zipper context (`RBNodes.Ctx`).
  - The `previous`/`next` thread is two maps in the `RBTrees.RBTree` class.
- **The sweep engine** (`Voronoi.js`), as the class `Fortune.Voronoi`.
  - It holds the pools ("junkyards"), the beachline and queue trees, and the arcs and events by id.
  - It also holds the edges, vertices and cells of the diagram under construction.
  - Every operation keeps `Valid()`: both trees valid, and the bookkeeping invariant `SweepState.Sweeping`.
  - Each operation is proved against value-level functions and predicates: `Landing`, `Removal`, `SweepOrder`, `CircleQueue`, `BreakPoints` and `Circles`.
- **The wrap-up** (`connectEdge`, `clipEdge`, `clipEdges`, `closeCells`).
  - It is proved against `Clipping.Connect`, `Clipping.LiangBarsky`, `WrapUp.Survivors`, `Border.Walk` and the closed-ring predicates of `WrapUp`.
- **Edges and cells** (`Edge.js`, `Cell.js`): the endpoint assignment, the half-edge preparation and the cell queries.
- **The small value classes** (`Point.js`, `Rect.js`, `Vertex.js`).

**Numbers and functions.** Numbers are `real`. The square root, the half-edge angle and the half-edge start/end points are parameters of the engine. `Infinity` is the extended real `Extended.Ext`.

**Failures.** Where the source would throw, a method returns `ok == false`. The contracts say what state it leaves only where "## Left out" does not list a gap: compute gives up after any throw, so in several places only the verdict is modelled.

**Identity.** A site's identity is its `id` field, and `voronoiId` is a map from site ids to cell indices.

## Model

| member | source | states |
|---|---|---|
| Points.Point.constructor | src/Point.js:2-5 | the point is at (x, y) |
| Points.Point.MoveTo | src/Point.js:6-9 | exactly the two coordinates are set |
| Points.Point.Norm2 | src/Point.js:13-15 | the squared norm is the point's dot product with itself and is never negative |
| Points.Point.Determinant | src/Point.js:16-18 | the result is the cross product of the two points |
| Points.Point.Dot | src/Point.js:19-21 | the result is the dot product of the two points |
| Points.Point.Clone | src/Point.js:22-24 | a fresh point at the same place |
| Points.Point.Diff | src/Point.js:25-27 | a fresh point at this point minus `p` |
| Points.Point.Sum | src/Point.js:28-30 | a fresh point at this point plus `p` |
| Points.DeterminantAntisymmetric | src/Point.js:16-18 | `a.det(b) == -b.det(a)` and `a.det(a) == 0` |
| Points.DotSymmetric | src/Point.js:19-21 | `a.dot(b) == b.dot(a)` |
| Points.MinusPlusRoundTrip | src/Point.js:25-30 | diff then sum by `b` gives back `a`, and sum then diff does too |
| Vertices.Vertex.constructor | src/Vertex.js:4-6 | the vertex is at (x, y) |
| Vertices.Vertex.Origin | src/Vertex.js:4-6 | with no arguments the vertex is at (0, 0) |
| Vertices.Vertex.MoveTo | src/Point.js:6-9 | the inherited moveTo sets exactly the two coordinates |
| Vertices.VertexPool.Create | src/Vertex.js:7-15 | the vertex is always at (x, y). With an empty pool it is fresh and the pool stays empty. Otherwise it is the last pooled vertex and the pool loses exactly it |
| Rects.Rect.constructor | src/Rect.js:4-16 | the four-argument form copies all four fields |
| Rects.Rect.Sized | src/Rect.js:4-16 | the two-argument form puts a w-by-h rectangle at the origin |
| Rects.Rect.Right | src/Rect.js:29-31 | `right - x == w` |
| Rects.Rect.Bottom | src/Rect.js:35-37 | `bottom - y == h` |
| Rects.Rect.Left | src/Rect.js:17-19 | `left == right - width`, with `Width` the plain getter of w (src/Rect.js:41-43) |
| Rects.Rect.Top | src/Rect.js:23-25 | `top == bottom - height`, with `Height` the plain getter of h (src/Rect.js:47-49) |
| Rects.Rect.SetLeft | src/Rect.js:20-22 | left becomes v and the width is kept, so right shifts by the same amount |
| Rects.Rect.SetTop | src/Rect.js:26-28 | top becomes v and the height is kept, so bottom shifts by the same amount |
| Rects.Rect.SetRight | src/Rect.js:32-34 | right becomes v, and x, y and h are unchanged |
| Rects.Rect.SetBottom | src/Rect.js:38-40 | bottom becomes v, and y, x and w are unchanged |
| Rects.Rect.SetWidth | src/Rect.js:44-46 | width becomes v, the left side stays and right is x + v |
| Rects.Rect.SetHeight | src/Rect.js:50-52 | height becomes v, the top side stays and bottom is y + v |
| Rects.Rect.CenterX | src/Rect.js:53-55 | as far from the right side as from the left, and between them for a non-negative width |
| Rects.Rect.CenterY | src/Rect.js:56-58 | as far from the bottom as from the top, and between them for a non-negative height |
| Rects.Rect.Center | src/Rect.js:59-61 | a fresh point at (centerX, centerY) |
| Rects.Rect.Area | src/Rect.js:62-64 | width times height, not negative for a non-negative size |
| Rects.Rect.Xl | src/Rect.js:65-67 | `xl == left` |
| Rects.Rect.Xr | src/Rect.js:68-70 | `xr == right` |
| Rects.Rect.Yt | src/Rect.js:71-73 | `yt == top` |
| Rects.Rect.Yb | src/Rect.js:74-76 | `yb == bottom` |
| Edges.Edge.constructor | src/Edge.js:2-7 | the edge has the two sites and no endpoints |
| Edges.Edge.SetSites | src/Edge.js:24-27 | both sites are stored as given and nothing else changes |
| Edges.Edge.SetVertices | src/Edge.js:28-31 | both endpoints are stored as given and nothing else changes |
| Edges.Edge.SetStartPoint | src/Edge.js:32-41 | the new state is `StartPoint` of the old one |
| Edges.Edge.SetEndPoint | src/Edge.js:42-44 | the new state is `EndPoint` of the old one, which is setStartPoint with the sites swapped |
| Edges.StartPoint | src/Edge.js:32-41 | an edge with no endpoint takes v as va and the given sites. Otherwise v goes to vb when the edge's left site is `right`, else to va, and the other endpoint and the sites are kept |
| Edges.EndpointsFollowOrientation | src/Edge.js:32-44 | once an edge between two sites has an endpoint, a start point from its left site lands on va and an end point on vb, and the reverse from its right site |
| Edges.EndPointOnNewEdge | src/Edge.js:42-44 | a new edge given only an end point is oriented from the other side, with that point as its start |
| Edges.Edge.MiddlePoint | src/Edge.js:45-50 | twice the middle point is the sum of the two sites |
| Edges.Midpoint | src/Edge.js:45-50 | the coordinate-wise average of the sites, equally far from both |
| Edges.Edge.GetBisector | src/Edge.js:57-62 | the middle point lies on the returned line, and `slope * (ry - ly) == lx - rx`, so the line is perpendicular to the sites' segment |
| Edges.Bisector | src/Edge.js:57-62 | for a non-vertical bisector the midpoint is on the line, and `slope * (ry - ly) == lx - rx` |
| Edges.BisectorEquidistant | src/Edge.js:57-62 | every point of the bisector line is equally far from both sites |
| Edges.DirectionsExclusive | src/Edge.js:51-68 | `Upward` and `Downward` (Edge.IsUpward, Edge.IsDownward) never hold together, and neither holds exactly when `BisectorHorizontal` (Edge.IsBisectorHorizontal) does |
| Edges.AxisBisectorEquidistant | src/Edge.js:51-56 | where `BisectorVertical` (Edge.IsBisectorVertical) holds, every point of the vertical line through the midpoint is equally far from both sites, and where `BisectorHorizontal` holds, every point of the horizontal one is |
| Edges.NewEdgeStateAsWritten | src/Voronoi.js:78-95 | the edge createEdge builds as written (setVertices first for a pooled edge). Its left site is one of the two sites |
| Edges.NewEdgeState | src/Voronoi.js:78-95 | the edge createEdge evidently means: from l to r with the given ends, or from r to l with vb as the start when only vb is given |
| Edges.RecycledEdgeDiffers | src/Voronoi.js:81-95 | a fresh edge is `NewEdgeState`. A pooled edge differs exactly when only vb is given: it keeps (l, r, none, vb) |
| Epsilon.ComparisonsAgree | src/Voronoi.js:50-56 | the ε comparisons fit together: "equal" is "at least" and "at most" at once, "less" is "greater" swapped, and no two of less/equal/greater hold together |
| Epsilon.ExtComparisonsFinite | src/Voronoi.js:52-56 | on finite numbers the comparisons against Infinity-aware values are the plain ones |
| Epsilon.Quantize | src/Voronoi.js:1007-1008 | `floor(v / ε) * ε` is at most v and within ε of it |
| Epsilon.QuantizeIdempotent | src/Voronoi.js:1007-1008 | quantizing twice is quantizing once |
| Extended.ExtSub | src/Voronoi.js:307 | `a - b` where JavaScript gives a number, with the infinities as JavaScript gives them |
| Extended.ExtLessStrictOrder | src/Voronoi.js:307-315 | `<` on numbers with ±Infinity is a strict order extending the one on reals |
| RBNodes.RotateLeft | src/RBNode.js:32-49 | the right child takes the node's place, the node becomes its left child, the inner subtree moves across, and the in-order sequence and the colours are kept |
| RBNodes.RotateRight | src/RBNode.js:50-67 | the mirror image of RotateLeft, with the same guarantees |
| RBNodes.RotationsInverse | src/RBNode.js:32-67 | a right rotation undoes a left rotation |
| RBNodes.GetFirst | src/RBNode.js:10-16 | the node reached has no left child and is the first of the subtree in order |
| RBNodes.GetLast | src/RBNode.js:18-24 | the node reached has no right child and is the last of the subtree in order |
| RBNodes.GetRoot | src/RBNode.js:25-31 | the node reached is the whole tree, whose in-order sequence holds the node's subtree at its place |
| RBNodes.RotateLeftAt | src/RBTree.js:209-214 | rotating inside a tree keeps its in-order sequence, and the root becomes the promoted child exactly when the rotated node had no parent |
| RBNodes.RotateRightAt | src/RBTree.js:216-222 | the mirror image of RotateLeftAt |
| RBTrees.RBTree.constructor | src/RBTree.js:5-7 | an empty valid tree |
| RBTrees.RBTree.InsertSuccessor | src/RBTree.js:14-86 | the tree stays a valid threaded red-black tree, and its elements are the old ones with the successor right after the node (first when there is none) |
| RBTrees.RBTree.RemoveNode | src/RBTree.js:88-207 | the tree stays valid, its elements are the old ones without the node, and the node's previous and next are cleared |
| RBTrees.RBTree.RotateLeft | src/RBTree.js:209-214 | the root is the rotated tree, it is the promoted child exactly when the node had no parent, and the thread is untouched |
| RBTrees.RBTree.RotateRight | src/RBTree.js:216-222 | the mirror image of RotateLeft |
| RBTrees.ChainInsert | src/RBTree.js:16-41 | linking a node in as insertSuccessor does threads the longer sequence |
| RBTrees.ChainRemove | src/RBTree.js:90-96 | unlinking a node as removeNode does threads the shorter sequence |
| RBBalance.InsertFixup | src/RBTree.js:44-85 | from a tree with a red leaf just attached, the loop ends in a red-black tree with the same in-order sequence |
| RBBalance.RemoveFixup | src/RBTree.js:146-206 | from a spliced tree with a black deficit, the easy cases and the do-while loop end in a red-black tree with the same in-order sequence |
| Cells.Blank | src/Cell.js:5-15 | the cell of the site, with no half-edges and not marked for closing |
| Cells.Cell.constructor | src/Cell.js:5-9 | the new cell is `Blank(site)` |
| Cells.Cell.Init | src/Cell.js:10-15 | the cell is reset to `Blank(site)` and the same cell is returned |
| Cells.Cell.AddHalfEdge | src/Cell.js:16-18 | exactly one half-edge is appended and nothing else changes |
| Cells.KeepComplete | src/Cell.js:27-32 | a half-edge is kept exactly when its edge has both endpoints |
| Cells.Prune | src/Cell.js:27-32 | the backward splice loop leaves exactly `KeepComplete` of the half-edges, in order |
| Cells.SortByAngle | src/Cell.js:39 | the result is sorted by non-increasing angle and is a permutation of the input |
| Cells.SortByAngleStable | src/Cell.js:39 | the sort is stable: for every angle, the half-edges of that angle come out in their input order |
| Cells.InsertByAngleAtAngle | src/Cell.js:39 | an inserted half-edge goes in front of those of equal angle, whose order is kept |
| Cells.PrepareList | src/Cell.js:20-41 | the incomplete half-edges are dropped, the rest sorted by angle as a permutation, and their number returned |
| Cells.Cell.PrepareHalfEdges | src/Cell.js:20-41 | the cell's half-edges become the sorted complete ones and the count is returned. Site and mark are unchanged |
| Cells.NeighborOf | src/Cell.js:48-55 | at most one id per half-edge, never the cell's own |
| Cells.NeighborsOf | src/Cell.js:44-58 | at most one id per half-edge, and none is the cell's own id |
| Cells.NeighborIds | src/Cell.js:44-58 | the loop collects exactly `NeighborsOf` of the half-edges |
| Cells.Cell.GetNeighborIds | src/Cell.js:44-58 | the ids are `NeighborsOf` of the cell's half-edges |
| Cells.BoundingBox | src/Cell.js:62-87 | every start point is in the box, each side is reached by some start point, and with no half-edge the bounds stay at their infinities |
| Cells.Cell.GetBbox | src/Cell.js:62-87 | every start point of the cell is in the returned box, each side is reached by some start point, and a cell with no half-edge gets the infinite bounds |
| Cells.PointIntersection | src/Cell.js:94-124 | 1 iff every half-edge has the point on its right. Otherwise 0 or -1 at the last half-edge, walking down, where the point is on or left of its line |
| Cells.Cell.GetPointIntersection | src/Cell.js:94-124 | 1 iff the point is right of every half-edge of the cell. Otherwise 0 or -1 at the last half-edge, walking down, where the point is on or left of its line |
| Cells.CellPool.Create | src/Cell.js:125-131 | the cell is `Blank(site)`. It is the last pooled cell (the pool loses it) or a fresh one when the pool is empty |
| BreakPoints.ParabolaY | src/Voronoi.js:136-199 | the point at the returned height is as far from the focus as from the directrix |
| BreakPoints.LeftBreakPoint | src/Voronoi.js:136-199 | a site on the sweep line gives its x. The first arc gives -Infinity. A left site on the sweep line gives its x. Sites at equal height meet midway. Otherwise the result is finite |
| BreakPoints.RightBreakPoint | src/Voronoi.js:203-210 | the next arc's left break point, or the site's x when it is on the sweep line, else +Infinity |
| BreakPoints.BreakPointOnBothArcs | src/Voronoi.js:190-195 | with a true square root, the returned x is where the two arcs have the same height |
| BreakPoints.BreakPointSolvesQuadratic | src/Voronoi.js:190-196 | where the two arcs' curvatures differ, the returned x is a root of the quadratic where the arcs' heights are equal |
| BreakPoints.BreakPointSolvesLinear | src/Voronoi.js:191-198 | where both sites are equally far from the sweep line, the midway x solves the degenerate linear equation |
| BreakPoints.EdgeLandingUnreachable | src/Voronoi.js:322-330 | as written, the search never lands on a break point |
| BreakPoints.OnBreakPointAsWritten | src/Voronoi.js:322-332 | a site exactly on the left break point splits the arc as written, but lands on the edge once corrected |
| BreakPoints.LandingAsWrittenAgrees | src/Voronoi.js:306-336 | the decision as written equals the corrected one except where the corrected one lands on a break point, and there the one as written is `Inside`, a split of the arc |
| BreakPoints.LandingCases | src/Voronoi.js:309-333 | the corrected decision at an arc, case by case: left iff dxl > ε, on the left edge iff -ε < dxl <= ε and dxr <= ε, on the right edge, inside, or right, each as an iff |
| Landing.NotPastBoth | src/Voronoi.js:309-320 | a site is never clearly right of one arc and clearly left of the next |
| Landing.GoLeftOnlyAtRay | src/Voronoi.js:309-311 | the search leaves the beachline on the left only at a first arc that is a vertical ray right of the site |
| Landing.InsideIsClear | src/Voronoi.js:330-332 | a site that lands inside an arc is clear of both its break points by at least ε |
| Landing.DecisionsConsistent | src/Voronoi.js:306-337 | the decisions at neighbouring arcs fit together, because they share a finite break point |
| Fortune.Voronoi.FindLanding | src/Voronoi.js:302-337 | the descent from the root ends with the arcs the `Landed` relation gives for the corrected decisions (`Land`, see Findings) of the arcs |
| Circles.Circumcenter | src/Voronoi.js:492-500 | the centre is equally far from the origin and from both points |
| Circles.CircumcenterEquidistant | src/Voronoi.js:492-500 | the circumcentre is equally far from the three points |
| Circles.CollapseOf | src/Voronoi.js:462-515 | an event only when the neighbours' sites differ and the clockwise test `2 a×c < -2e-12` passes, with its y the bottom of the circle |
| Circles.CollapseNeedsTurn | src/Voronoi.js:468-495 | an event exists iff the neighbours' sites differ and the denominator is below -2e-12 |
| Circles.CollapseCentered | src/Voronoi.js:497-515 | the event's centre is equally far from the three sites |
| Circles.LandingVertex | src/Voronoi.js:431-439 | the vertex exists iff the three sites are not collinear |
| Circles.LandingVertexCentered | src/Voronoi.js:431-439 | the vertex is equally far from the new site and both neighbours' sites |
| SweepOrder.NotAfterTotal | src/Voronoi.js:523 | the queue order (y, then x with ties to the new event) is a total preorder |
| SweepOrder.QueueInsert | src/Voronoi.js:520-540 | inserting after every event strictly before the new one keeps the queue sorted |
| SweepOrder.QueueRemove | src/Voronoi.js:552 | removing an event keeps the queue sorted |
| SweepOrder.QueueHead | src/Voronoi.js:541-550 | the first queued event is not after any other |
| SweepOrder.Rank | src/Voronoi.js:520-539 | the new event goes after every event strictly before it and before every event it is not after |
| CircleQueue.SearchQueue | src/Voronoi.js:520-539 | the descent splits the queue into the events strictly before the new one and those it is not after, and the predecessor is the last of the first part |
| SweepOrder.SortSites | src/Voronoi.js:1054-1061 | the sites sorted by the comparator (decreasing y, then x), as a permutation |
| SweepOrder.SortSitesStable | src/Voronoi.js:1055-1061 | the sort is stable: at every place the sorted sites are the input's sites there, in input order |
| SweepOrder.PoppedInSweepOrder | src/Voronoi.js:1063-1091 | popped from the end, the sorted sites come in sweep order |
| SweepOrder.Pop | src/Voronoi.js:1091 | pop gives the last site and the rest, or none on an empty list |
| SweepOrder.DedupIncreasing | src/Voronoi.js:1081 | skipping sites at the last kept site's place leaves kept sites strictly increasing, so no two share a place |
| SweepOrder.DedupCovers | src/Voronoi.js:1081 | every site met shares its place with a kept site |
| SweepOrder.KeptIncreasing | src/Voronoi.js:1054-1091 | compute's kept sites are strictly increasing in sweep order |
| SweepOrder.KeptCovers | src/Voronoi.js:1054-1091 | every input site shares its place with a kept site |
| SweepOrder.KeptIds | src/Voronoi.js:1083-1084 | each kept site's id maps exactly to its own index |
| SweepOrder.SiteEventFirstIsSweepOrder | src/Voronoi.js:1079 | a site event is taken first iff the site is strictly earlier in sweep order than the event's bottom |
| Fortune.QuantizedSite | src/Voronoi.js:1006-1008 | the site snapped to the ε grid, at most ε below and left of it, same id |
| Fortune.QuantizedSiteIdempotent | src/Voronoi.js:1006-1008 | quantizing a site twice is quantizing it once |
| Fortune.Voronoi.QuantizeSites | src/Voronoi.js:1001-1010 | every element of the array is replaced by its quantized site |
| Fortune.Voronoi.constructor | src/Voronoi.js:14-25 | empty pools, empty trees and output lists, no diagram to recycle |
| Fortune.Voronoi.Reset | src/Voronoi.js:26-46 | the arcs of the beachline go to the arc pool left to right, both trees are empty, there is no first event, and the output lists are empty. The vertex positions and edge states are kept | |
| Fortune.Voronoi.CellIndex | src/Voronoi.js:97-98 | the cell index is the site's voronoiId when it names a cell, none otherwise |
| Fortune.Voronoi.CreateCell | src/Voronoi.js:58-64 | a blank cell for the site, taken from the pool when it is not empty |
| Fortune.Voronoi.CreateVertex | src/Voronoi.js:68-77 | the vertex id is the last pooled one or a fresh one, it sits at (x, y), and it is appended to the vertices |
| Fortune.Voronoi.CreateEdge | src/Voronoi.js:78-100 | the edge id comes from the pool or is fresh and has state `NewEdgeState`. It is appended to the edges. The cells are `Paired`: l's cell gets l's half-edge facing r at its end, then r's cell gets r's facing l, and nothing else changes in the cells. ok iff both sites have cells, and the partial change at a failure is stated |
| Fortune.PairedCells | src/Voronoi.js:97-98 | after createEdge's two pushes the cells keep their sites. When both sites have distinct cells, each of those gains exactly its own half-edge of the edge at the end, and every other cell is unchanged |
| Fortune.Voronoi.CreateBorderEdge | src/Voronoi.js:101-111 | an edge on `lSite`'s side only, from va to vb, appended to the edges |
| Fortune.Voronoi.CreateBeachSection | src/Voronoi.js:122-129 | the arc is the last pooled one (which keeps its edge) or a fresh one, with the site set and no event |
| Fortune.Voronoi.DetachCircleEvent | src/Voronoi.js:546-556 | no change without an event. Otherwise the event leaves the queue for the pool, the arc forgets it, and the first event follows |
| Fortune.Voronoi.AttachCircleEvent | src/Voronoi.js:456-544 | an event is queued iff `CollapseIn` finds one. It then comes from the pool, is linked both ways, and is placed at its rank in the queue. Otherwise nothing changes |
| Fortune.AttachCases | src/Voronoi.js:456-515 | no event exactly when the arc lacks a neighbour, its neighbours share a site, or the clockwise test fails. An event's centre is equally far from the three sites |
| Fortune.EventFor | src/Voronoi.js:511-515 | the event for the arc carries the arc, its site and the circle's centre and bottom |
| Fortune.NextFirst | src/Voronoi.js:549-551 | detaching keeps firstCircleEvent the head of the queue |
| SweepState.SweepingEnqueue | src/Voronoi.js:507-543 | attaching an event keeps the bookkeeping invariant, and the event lands at its rank |
| Fortune.Voronoi.DetachBeachSection | src/Voronoi.js:212-216 | the arc's event is detached, and the arc leaves the beachline for the end of the arc pool |
| Fortune.Voronoi.AddBeachSection | src/Voronoi.js:294-453 | the search decisions and landing arcs, the new arc right after lArc, and per case (`Added`) the copied arc, the new edges' sites and start vertex, each arc's edge, and the events detached. Per case (`Attached`): with no arc on the left or after the last arc no event is queued or changed; on a split l and the copy, between two arcs l and r, each hold exactly the event attachCircleEvent gives it on the new beachline (`Circled`: one iff `CollapseIn` finds one, filled in from it). The cells gain exactly the new edges' half-edges (`AddedCells`): none with no arc on the left, those of the edge from l's site to the site on a split or after the last arc, those of both edges from the vertex between two arcs when ok, and none when that case fails. ok is false where the source, with the corrected landing test, throws, and also for three collinear sites, where it does not (see Left out) | |
| Fortune.Voronoi.SplitArc | src/Voronoi.js:366-383 | l's event is detached, a copy of l goes after the new arc, one edge between l's site and the new site is the edge of both, and the cells gain that edge's two half-edges (`Paired`). When ok, l and the copy each hold the event `CollapseIn` finds for it on the new beachline, none where it finds none (`Pending`) | |
| Fortune.Voronoi.AfterLast | src/Voronoi.js:395-398 | one edge from the last arc's site to the new site becomes the new arc's edge, and the cells gain its two half-edges (`Paired`) | |
| Fortune.Voronoi.JoinCase | src/Voronoi.js:418-453 | when the three sites are collinear, r has no edge, or a site lacks a cell, ok is false and nothing changes, the cells included (the source's state at those throws is not modelled, see Left out). Otherwise as `JoinArcs`, with l and r holding the events the new beachline calls for and the cells gaining both edges' half-edges (`Fanned`) | |
| Fortune.Voronoi.JoinArcs | src/Voronoi.js:418-453 | l's and r's events are detached, and the vertex at the circle's centre starts r's edge. Two edges start there (l's site to s, and s to r's site) and become the edges of the new arc and of r. The cells gain the half-edges of the first edge, then of the second (`Fanned`). l and r then each hold the event `CollapseIn` finds for it on the new beachline, none where it finds none (`Pending`) | |
| Fortune.Voronoi.StartVertex | src/Voronoi.js:436-442 | the vertex at the centre is created and made the start of r's edge by `StartPoint`. The cells and the edge list are unchanged | |
| Fortune.Voronoi.StartVertexAsWritten | src/Voronoi.js:418-442 | as written the call to `setStartpoint` throws: both events detached, the vertex created, ok false, and no edge changed or added |
| Fortune.SplitAdded | src/Voronoi.js:366-383 | the copy and the shared edge together make the split case of `Added` |
| Fortune.JoinSteps | src/Voronoi.js:436-446 | the start vertex then the two new edges together make the between case of `JoinedAt` |
| Fortune.Voronoi.RemoveBeachSection | src/Voronoi.js:218-292 | the vertex at the circle's centre. The arc and its co-collapsing neighbours leave the beachline, and the transitions' edges start at the vertex. A new edge between the surviving neighbours ends there. ok is false exactly where the source throws (`Removed`). The cells gain the new edge's half-edges when the source reaches createEdge, and are unchanged when it throws before (`Bridged`). When ok, the surviving neighbours b[j] and b[m] each hold the event `CollapseIn` finds for it on the new beachline (`Pending`) | |
| Fortune.BridgedSites | src/Voronoi.js:218-292 | removeBeachSection keeps the sites of the cells: it only adds half-edges |
| Fortune.Voronoi.LookLeft | src/Voronoi.js:241-253 | the look left stops at `LeftStop`, detaching the collapsing arcs into the pool in the order met, and clears the survivor's event |
| Fortune.Voronoi.LookRight | src/Voronoi.js:256-267 | the look right stops at `RightStop`, with the same guarantees |
| Removal.LeftStopRun | src/Voronoi.js:242-247 | every arc the look left passes collapses at the vertex, and the one it stops at does not |
| Removal.RightStopRun | src/Voronoi.js:257-262 | every arc the look right passes collapses at the vertex, and the one it stops at does not |
| Removal.Starts | src/Voronoi.js:273-277 | after the loop every transition's edge but the first has the vertex as an endpoint, and no other edge changes |
| Removal.Uncircled | src/Voronoi.js:253-267 | the arcs lose their pending events and nothing else |
| Removal.RemovedSteps | src/Voronoi.js:218-292 | the look left and, when it finds an arc, the look right and the new edge make `Removed` |
| Clipping.Connect | src/Voronoi.js:566-691 | a connected edge ends on a box side, and an edge without a start gets one |
| Clipping.ConnectOnBisector | src/Voronoi.js:593-689 | every point connectEdge creates lies on a box side and on the sites' bisector |
| Clipping.ConnectRejects | src/Voronoi.js:600-685 | the edge is given up iff its vertical bisector is outside [left, right) or its start is already past the side its end would go to, per slope case |
| Clipping.ConnectVerticalInside | src/Voronoi.js:620-641 | a kept vertical bisector is within [left, right) and ends at its x |
| Clipping.LiangBarskyExact | src/Voronoi.js:699-778 | a parameter in [0, 1] is in clipEdge's window iff the segment's point there is in the box |
| Clipping.LiangBarskyBounds | src/Voronoi.js:699-778 | the window lies within [0, 1] and is not empty |
| Clipping.ClippedInside | src/Voronoi.js:779-795 | both ends of the window are in the box, and a segment inside is kept whole |
| Clipping.FateInBox | src/Voronoi.js:815-825 | every kept edge has both ends in the box and is not point-like. An edge already inside and not point-like is kept as it is |
| Clipping.FateOnBisector | src/Voronoi.js:815-825 | connecting and clipping keep an edge on its bisector |
| Fortune.Voronoi.ConnectEdge | src/Voronoi.js:566-692 | true and no change when vb is set. Otherwise both cells are marked, and the edge is given up (false, unchanged) or gets the ends `Connected` gives, each new end a new vertex |
| Fortune.Voronoi.ClipEdge | src/Voronoi.js:699-803 | false and no change when the segment misses the box. Otherwise the start moves when t0 > 0 and the end when t1 < 1, and both cells are marked exactly when an end moved |
| Fortune.Voronoi.ClipEdges | src/Voronoi.js:806-827 | the edges become `Survivors`, in order. Each is `Settled` with its connected and clipped ends, the others keep their state, and vertex positions are kept |
| WrapUp.Survivors | src/Voronoi.js:815-825 | an edge survives iff its fate is kept |
| WrapUp.SurvivorsInBox | src/Voronoi.js:806-827 | every surviving edge has both ends set, in the box and apart |
| WrapUp.SettledInBox | src/Voronoi.js:806-827 | after clipEdges each kept edge is in the box, not point-like, and still on its sites' bisector |
| Border.EntrySide | src/Voronoi.js:880-930 | the side where the walk enters, one of the four, or none (the default throw) |
| Border.SegmentEnd | src/Voronoi.js:883-959 | each border segment ends on the line of its side |
| Border.Walk | src/Voronoi.js:880-964 | the segments from the entry side on, along the fall-through: all but the last end at a corner, each lies on its side, and the last reaches the target |
| Border.WalkEndsAtTarget | src/Voronoi.js:884-959 | the last segment ends within ε of the next half-edge's start |
| Border.WalkChained | src/Voronoi.js:891-949 | each segment starts where the previous one ended |
| Border.GapEntry | src/Voronoi.js:883-919 | the walk enters on a side the gap's start is within ε of |
| WrapUp.RingClosed | src/Voronoi.js:867-967 | a closed cell is a ring: after each half-edge its border pieces chain end to start along the box, and the last ends within ε of the next half-edge's start |
| WrapUp.ClosedUnmarked | src/Voronoi.js:852-968 | a cell closeCells handled keeps its site and stays marked only when it has no half-edges |
| Fortune.Voronoi.CloseCell | src/Voronoi.js:848-968 | one cell is prepared and, when marked and non-empty, closed along the border and unmarked. ok is false iff the source throws |
| Fortune.Voronoi.CloseCells | src/Voronoi.js:836-970 | ok iff every cell can be closed, and each cell is then closed as `CellClosed` says |
| Fortune.Voronoi.HandleSite | src/Voronoi.js:1083-1086 | a blank cell for the site at the next index, the site's voronoiId set to it, then addBeachSection with its whole contract (`Arrived`: the landing, the new beachline, `Added` and `Attached`; the cells are `AddedCells` of the old cells plus the blank one) | |
| Fortune.Voronoi.HandleCircle | src/Voronoi.js:1095-1096 | removeBeachSection on the arc of the first event: the vertex at its circle's centre, `Removed`, the cells as `Bridged` gives them, and when ok the survivors' events (`Pending`) | |
| Fortune.Voronoi.Sweep | src/Voronoi.js:1064-1103 | the cells are those of the sites kept so far with ids their indices. On success the queue is empty and the kept sites are `Dedup` of the sorted sites in pop order |
| Fortune.Voronoi.WrapUp | src/Voronoi.js:1110-1122 | the edges are clipEdges' survivors. ok iff closeCells can close every cell, and each cell is then closed, with only cells without half-edges left marked |
| Fortune.Voronoi.TakeRecycled | src/Voronoi.js:1046-1051 | a recycled diagram's vertices, edges and cells are appended to their pools, and nothing is left to recycle |
| Fortune.Voronoi.Recycle | src/Voronoi.js:1018-1027 | a diagram handed back is kept for the next compute, and none leaves things as they are |
| Fortune.Voronoi.Compute | src/Voronoi.js:1037-1128 | on success the cells are those of `KeptSites(sites)` in order, each site's voronoiId is its cell's index, only empty cells stay marked, and the engine is empty again. `WrappedUp` relates the diagram to the state the sweep left: every edge was ready, the edges that survive clipping come first in the diagram's edges, the cells keep their sites, and each cell is its clipped cell closed along the box (`CellClosed`) | |
| Fortune.Voronoi.SweepAndConclude | src/Voronoi.js:1063-1127 | on success the kept sites are `Dedup` of the sorted sites in pop order, each with its id, the diagram's cells are theirs in order, `WrappedUp` holds, and the engine is empty again |
| Fortune.Voronoi.Conclude | src/Voronoi.js:1105-1127 | the wrap-up of the state the sweep left (`WrappedUp`). The diagram's cells keep the kept sites in order, only empty ones stay marked, and the reset leaves the engine empty |
| Points.SquaredLength | src/Point.js:13-15 | the squared length is the dot product with itself, never negative |
| Points.CrossAntisymmetric | src/Point.js:16-18 | swapping the operands of the cross product negates it, and a vector crossed with itself is 0 |
| Points.InnerSymmetric | src/Point.js:19-21 | the dot product is symmetric |
| Extended.ExtNeg | src/Voronoi.js:322-326 | negation keeps finiteness and negates a finite number |
| Extended.ExtNegInvolution | src/Voronoi.js:322-326 | negating twice gives the number back, and negation reverses `<` |
| Epsilon.FloorScale | src/Voronoi.js:1007-1008 | the floor bound on `v / ε` carries over to `floor(v / ε) * ε` and v |
| Edges.EndPoint | src/Edge.js:42-44 | an edge with no endpoint takes v as va and the sites reversed. Otherwise v goes to vb when the edge's left site is `left`, else to va, and the other endpoint and the sites are kept |
| Cells.InsertByAngle | src/Cell.js:39 | inserting into an angle-sorted list keeps it sorted and adds exactly one half-edge |
| Cells.PruneStep | src/Cell.js:27-32 | one step of the backward loop splices out the half-edge at i exactly when its edge is incomplete |
| RBNodes.IndexOf | src/RBTree.js:14-86 | the position of a node in the in-order sequence: it is there and nowhere before |
| RBNodes.PlugInOrder | src/RBNode.js:25-31 | a subtree put back into its context sits between the nodes before and after the context |
| RBNodes.PlugRoot | src/RBNode.js:25-31 | the root of a tree inside a context does not depend on the subtree |
| RBNodes.PromotedIsRoot | src/RBTree.js:209-222 | a subtree's new top becomes the root exactly when the subtree had no parent |
| RBNodes.Find | src/RBTree.js:14-86 | the zipper of a node in the tree, which exists for every node of the tree |
| RBBalance.Blacken | src/RBTree.js:85 | painting the root black keeps the in-order sequence, the balance, and the absence of red-red links |
| RBTrees.InsertAfter | src/RBTree.js:14-41 | the sequence with x placed after the node (first when none) is one longer and holds x |
| RBTrees.Without | src/RBTree.js:88-96 | the sequence without the node is one shorter |
| RBTrees.ChainUnlink | src/RBTree.js:90-96 | unthreading a node threads the sequence without it |
| RBTrees.RBTree.LeafFor | src/RBTree.js:16-43 | the leaf position for the successor, whose in-order sequence puts it right after the node |
| RBTrees.RBTree.LinkIn | src/RBTree.js:16-41 | the thread is that of the sequence with the successor after the node, and the tree is unchanged |
| RBTrees.RBTree.Unlink | src/RBTree.js:90-96 | the thread is that of the sequence without the node, whose own links are cleared |
| RBTrees.RBTree.Detach | src/RBTree.js:97-206 | the new root is a red-black tree whose in-order sequence lacks the node |
| CircleQueue.Last | src/Voronoi.js:520-539 | the node the new event follows exists iff some event comes before it |
| CircleQueue.InsertAfterLast | src/Voronoi.js:540 | inserting after the last event of a prefix puts the new event between the prefix and the rest |
| CircleQueue.SearchRank | src/Voronoi.js:520-540 | the new event lands at its rank in the queue |
| Circles.CenterThroughEquidistant | src/Voronoi.js:492-500 | shifting the circumcentre back to the site's frame keeps it equally far from the three points |
| Clipping.PointAt | src/Voronoi.js:783-792 | the segment's point at t = 0 is its start and at t = 1 its end |
| Clipping.ClippedInBox | src/Voronoi.js:779-795 | both kept ends are in the box, and a segment inside is kept whole |
| Border.SideOf | src/Voronoi.js:880-964 | each case of the fall-through walks along one of the four sides |
| Border.GapNeedsEntry | src/Voronoi.js:873-964 | a gap is filled only when its start is within ε of a side |
| WrapUp.Located | src/Voronoi.js:815-825 | an edge end has a position iff it is set and known, and the position is the vertex's |
| WrapUp.Flag | src/Voronoi.js:591-592 | exactly the cell at i becomes marked, and every other cell is unchanged |
| WrapUp.FateOfKept | src/Voronoi.js:806-827 | while vertex positions are kept, an edge's readiness and its clip fate do not change |
| WrapUp.NextIn | src/Voronoi.js:869 | the index after k wraps around within the ring |
| WrapUp.Weave | src/Voronoi.js:958-966 | the border runs are spliced in after their half-edges, and the first half-edge stays first |
| WrapUp.RunCloses | src/Voronoi.js:884-959 | the pieces of a border run chain end to start along the border, and the last ends within ε of the target |
| WrapUp.WalkPoints | src/Voronoi.js:880-964 | the walk's last point is within ε of its target, and every point lies on the border |
| WrapUp.Prepared | src/Cell.js:20-41 | every half-edge prepareHalfedges keeps is one of the cell's and complete |
| WrapUp.ClosableKept | src/Voronoi.js:848-969 | whether a cell can be closed does not change while the diagram only grows |
| WrapUp.CellClosedKept | src/Voronoi.js:848-969 | a closed cell stays closed while later cells are closed |
| Landing.DecisionsOf | src/Voronoi.js:306-337 | every arc of the beachline has a decision |
| Landing.LandedMembers | src/Voronoi.js:306-343 | the arcs a search lands between are on the beachline |
| Landing.SharedBreakPoint | src/Voronoi.js:136-210 | neighbouring arcs share a finite break point: the right one of the first is the left one of the next |
| Landing.BetweenByLinks | src/Voronoi.js:342-345 | the neighbours read through the tree's previous and next links are the arcs around the landing place |
| Removal.LeftStop | src/Voronoi.js:241-253 | the look left stops at or before its start, at -1 when every arc collapses |
| Removal.RightStop | src/Voronoi.js:256-267 | the look right stops at or after its start, at the end when every arc collapses |
| Removal.Transitions | src/Voronoi.js:273-286 | per disappearing arc, in order, its site and edge |
| Removal.TransitionsUncircled | src/Voronoi.js:253-286 | clearing pending events leaves the sites and edges the transitions read |
| SweepState.Head | src/Voronoi.js:549-551 | the first element exists iff the queue is not empty, and it is the queue's first |
| SweepState.Popped | src/Voronoi.js:1091 | pop leaves the list minus its last element |
| SweepState.SweepingReset | src/Voronoi.js:26-46 | with an empty queue, emptying both trees and pooling the beachline's arcs keeps the bookkeeping |
| SweepOrder.InsertSite | src/Voronoi.js:1054-1061 | inserting into a comparator-sorted list keeps it sorted and adds exactly the site |
| SweepOrder.Reversed | src/Voronoi.js:1063-1091 | popping from the end reads the array back to front |
| SweepOrder.Dedup | src/Voronoi.js:1081 | compute keeps some of the sites it meets and no others |
| SweepOrder.SameIdsPermuted | src/Voronoi.js:1054-1061 | sorting keeps every id standing for a single site |
| Fortune.AddTo | src/Voronoi.js:97-98 | exactly the cell at i gets the half-edge appended, and every other cell is unchanged |
| Fortune.SweepsKeep | src/Voronoi.js:1081-1086 | a site at a new place gets the next cell and its id, and the stream moves on |
| Fortune.LandedAfterDetach | src/Voronoi.js:420-421 | detaching l's and r's events first does not change the landing between them |
| Fortune.Voronoi.HalfEdgeOf | src/Voronoi.js:97-98 | the half-edge of the edge for the site, facing the other site |
| Fortune.Voronoi.InsertArc | src/Voronoi.js:342-343 | a new arc with no event, from the pool or fresh, right after the left arc on the beachline |
| Fortune.Voronoi.Arrive | src/Voronoi.js:302-343 | the decisions at the arcs, the landing arcs, and the new arc after lArc. Cells, edges and vertices are unchanged |
| Fortune.Voronoi.Settle | src/Voronoi.js:355-452 | the beachline gains the copy only in the split case, the cases together are `Added`, the events are as `Attached` says, and the cells are `AddedCells` | |
| Fortune.Voronoi.SettleSplit | src/Voronoi.js:366-383 | the split case of `Settle`, with its contract for that case: the copy joins the beachline after the new arc, and the cells gain the shared edge's half-edges |
| Fortune.Voronoi.SettleBeside | src/Voronoi.js:395-452 | the cases after the last arc and between two arcs of `Settle`, with its contract for those cases: the beachline is unchanged and the cells are `AddedCells` |
| Fortune.Voronoi.Extend | src/Voronoi.js:395-452 | after the last arc the case is `AddedAfter`, no event is queued or changed, and the cells gain the edge's half-edges (`Paired`). Between two arcs it is `AddedBetween`; when ok, l and r hold the events the new beachline calls for (`Pending`) and the cells gain both edges' half-edges (`Fanned`), and otherwise the cells are unchanged | |
| Fortune.Voronoi.SplitEdge | src/Voronoi.js:378-383 | one edge between l's site and the new site is shared by the new arc and the copy (`Shared`), the cells gain its two half-edges (`Paired`), and when ok l and the copy hold the events the new beachline calls for | |
| Fortune.Voronoi.ScanLeft | src/Voronoi.js:242-247 | the loop stops at `LeftStop`, and the arcs it detaches are those `LeftScan` lists |
| Fortune.Voronoi.ScanRight | src/Voronoi.js:257-262 | the loop stops at `RightStop`, and the arcs it detaches are those `RightScan` lists |
| Fortune.Voronoi.SiteArrives | src/Voronoi.js:1086 | addBeachSection keeps the invariant, the cells' sites and the voronoiIds, does what `Arrived` says, and the cells are `AddedCells` | |
| Fortune.Voronoi.Attach | src/Voronoi.js:456-544 | only the arc's event changes, to exactly the one attachCircleEvent gives it on the beachline (`Pending`). A new event was not on the old queue and is inserted at its rank (`Rank`), the rest of the queue in order around it, and no other event changes | |
| Fortune.Voronoi.AttachBoth | src/Voronoi.js:381-382 | two attachCircleEvent calls in a row: both arcs hold the events the beachline calls for, the first one's surviving the second call |
| Fortune.CircledKept | src/Voronoi.js:381-382 | an arc keeps its attached event when another arc then gets a new event or none |
| Fortune.CollapseBySites | src/Voronoi.js:456-470 | where an arc collapses depends only on its own and its neighbours' sites, not on their edges or events |
| Fortune.Voronoi.ShareEdge | src/Voronoi.js:376-382 | the new arc and the copy share the edge, and l and the copy hold the events the new beachline calls for. Without ok the arcs are unchanged. The cells, edges and edge states are unchanged either way | |
| Fortune.Voronoi.Fan | src/Voronoi.js:445-451 | the two new edges belong to the new arc and r (`LandedBetween`), the cells gain both edges' half-edges (`Fanned`), and l and r hold the events the new beachline calls for | |
| Fortune.Voronoi.Reconnect | src/Voronoi.js:286-291 | the new edge between the survivors ends at the vertex and is r's, and the cells gain its half-edges (`Paired`); when both sites have cells, l and r hold the events the new beachline calls for | |

## Left out

- Fortune.Voronoi.Reset: requires an empty circle-event queue. compute's loop runs until no circle event is left, so the queue is empty at every reset except one after a compute that threw mid-sweep. That reset pools beach sections that still point at live events (src/Voronoi.js:31-42). The model does not follow that corrupt state.
- Fortune.Voronoi.Compute: requires an empty queue for the same reason. It returns `None` where the source throws. It also returns `None` when the sweep does not finish in `fuel` steps, and when the state after the sweep is not `WrapReady` (vertex and edge pools fresh, every edge with both sites). The source's sweep always ends, and its termination is not proved here.
- Fortune.Voronoi.Sweep: the `fuel` step bound stands in for the source's unbounded `for (;;)`.
- Fortune.Voronoi.AddBeachSection: where the source throws (a site without a cell, an arc without an edge, a site landing on the left break point of the first arc, where `detachCircleEvent` gets a null `lArc` at src/Voronoi.js:420), the model returns `ok == false`. A site left of every arc is not a throw: the descent goes left off the tree and the new arc becomes the first one (src/Voronoi.js:306-311, 342-355), as in the model. The state the source leaves at a throw is stated for the split (`AddedSplit`: l's event detached, the copy on the beachline, the edge listed) and after the last arc (`AddedAfter`: the edge listed). It is not stated between two arcs (see `Fortune.Voronoi.JoinCase`). compute gives up after any throw.
- Fortune.Voronoi.FindLanding: the engine searches with the corrected decision `Land` (a site within ε of a break point lands on it, `-ε < d`), not the dead `lessThanEpsilon(-dxl)` / `lessThanEpsilon(-dxr)` tests of src/Voronoi.js:322-330 (see Findings). Where a site lies within ε of a break point, the source as written splits the arc left or right of it, and the model lands between the two arcs and joins them; e.g. sites (0,0), (2,0), (1,5): as written (1,5) splits the arc of (0,0), while the model joins (0,0) and (2,0) at a new vertex. Everywhere else the two decisions agree, so the descent takes the same steps and stops at the same arc (`BreakPoints.LandingAsWrittenAgrees`, `BreakPoints.OnBreakPointAsWritten`).
- Fortune.Voronoi.JoinCase: when the three sites are collinear the source divides by zero (src/Voronoi.js:436-439). It carries on with an Infinity/NaN vertex without throwing, after both events were detached. The model returns `ok == false` and changes nothing.
- Fortune.Voronoi.JoinCase: at the throws between two arcs the model also returns `ok == false` with nothing changed (`AddedBetween` says `!ok ==> g == g0`), which is not the source's state there. When r has no edge, the source throws at src/Voronoi.js:442 after detaching both events (420-421) and creating the vertex (439). When a site has no cell, createEdge throws at 445 or 446 after r's old edge was started, the new edge listed and possibly one half-edge pushed. compute gives up after either, so only the `ok == false` verdict is modelled.
- Fortune.Voronoi.Extend: between two arcs it inherits the JoinCase gap above: at a throw the model's state is the one before the case, not the source's partial one.
- Fortune.Voronoi.RemoveBeachSection: where the source throws (src/Voronoi.js:242 and 257, past the first or last arc; 276, a transition without an edge; 286 through 97-98, a site without a cell) the model returns `ok == false`. The vertex created and the cells are still stated: unchanged before createEdge, exactly `Paired` when createEdge itself throws (`Bridged`). The beachline, the arcs, the events and the edges the source leaves at those throws are not stated. `Fortune.Voronoi.HandleCircle` inherits this. compute gives up after any throw.
- Fortune.Voronoi.Sweep: each step states exactly which half-edges the cells gain (`AddedCells`, `Bridged`), but the loop's invariant keeps only the cells' sites and voronoiIds (`CellsOf`). Which half-edges each cell holds once the whole sweep is over, as a function of the sites, is not stated.
- Fortune.Voronoi.ClipEdges: states that the cells' sites and half-edges are kept and that flags are only added (`Marked`), not exactly which cells connectEdge and clipEdge flag over the whole loop. `Fortune.Voronoi.ConnectEdge` and `Fortune.Voronoi.ClipEdge` state the flags of one edge exactly.
- Fortune.Voronoi.CreateEdge: a pooled edge gets the corrected `NewEdgeState`, not the setVertices-first state of src/Voronoi.js:81-87 (see Findings). `NewEdgeStateAsWritten` models that state.
- Fortune.Voronoi.StartVertex: calls setStartPoint where src/Voronoi.js:442 calls the undefined `setStartpoint` (see Findings). `StartVertexAsWritten` models that call.
- Fortune.Voronoi.Recycle: `diagram instanceof this.Diagram` (src/Voronoi.js:1020) is a TypeError, because `this.Diagram` is undefined. The model keeps any diagram handed back. The typed argument rules out the "Need a Diagram object" throw.
- Fortune.Voronoi.QuantizeSites: `Math.floor(v / ε) * ε` is exact real arithmetic. The sites are values in an array, so one site object reached through two entries is not modelled (quantizing is idempotent, so the result agrees).
- Fortune.Voronoi.ClipEdges: requires every unfinished edge's sites to have cells, which compute's sweep gives every edge it creates.
- Fortune.Voronoi.CloseCells: the cells' half-edges are values in `cells`. A throw mid-loop leaves earlier cells closed, and the model states only `ok == false` then.
- createEdge's `cells[..].halfedges` (src/Voronoi.js:97-98) and closeCells' `prepareHalfedges` / `halfedges` (src/Voronoi.js:852, 861) name members that Cell spells `halfEdges` / `prepareHalfEdges`. The model uses Cell's names.
- CircleEvent nodes (src/CircleEvent.js) carry `rb*` fields the tree does not use. Queue nodes are ordinary tree nodes here.
- Numbers are `real`. Floating-point rounding, NaN and the adequacy of the constants 1e-9 and 2e-12 are not modelled.
- `Math.sqrt` (src/Voronoi.js:195, 514), a half-edge's `angle`, and `getStartpoint` / `getEndpoint` are parameters of `Fortune.Voronoi` (`sqrt`, `angle`, `startOf`, `endOf`). HalfEdge.js, BeachLine.js and Diagram.js are not part of this model.
- `Point.norm` (src/Point.js:10-12) is a square root and is not modelled. `norm2` is.
- The execution time (`new Date()`, src/Voronoi.js:1039, 1116, 1123) is a clock reading and is left out of `Diagram`.
- The `console.log` calls in Edge's `lSite`/`rSite` accessors (src/Edge.js:8-23) are output only. The accessors are plain fields.
- `Site.cell` and `Site.addHalfEdge` (src/Site.js) are not used by the sweep. A site is the value `Site(id, x, y)`, and site identity is the `id` (`SameIds`).
- Cells.Cell and Vertices.Vertex are modelled as classes on their own. The engine keeps cells as `CellState` values and vertices as positions by id, so aliasing between those objects and the engine's lists is not modelled.
- App.js (drawing, timers, random sites), the module export shim and the commented-out beachline dump are not modelled.

## Findings

| source | as written | input that shows it | evidently intended | confidence | as-written member | corrected member |
|---|---|---|---|---|---|---|
| src/Voronoi.js:322-330 | `lessThanEpsilon(-dxl)` and `lessThanEpsilon(-dxr)` mean `dxl > ε` and `dxr > ε`. Both tests already failed, so a site never lands on a break point and the between case is dead | sites (0,0), (2,0), (1,5): the third lies on the break point x = 1 of the first two arcs (dxr = 0), and as written it splits the arc of (0,0) | `dxl > -ε` and `dxr > -ε` (land on the edge between the two arcs) | high; not executed | BreakPoints.EdgeLandingUnreachable | BreakPoints.LandingCases |
| src/Voronoi.js:81-95 | a pooled edge gets `setVertices(va, vb)` before setStartPoint/setEndPoint, so with only vb given, setEndPoint finds the edge started and leaves it as (l, r, none, vb). Reachable only once the recycle check at line 1020 works | createEdge(l, r, undefined, v) on a recycled edge, as removeBeachSection and addBeachSection call it | the fresh edge's state (r, l, v, none) | high; not executed | Edges.RecycledEdgeDiffers | Edges.NewEdgeState |
| src/Voronoi.js:442 | `rArc.edge.setStartpoint(...)` names no Edge method, so the between case throws a TypeError | with line 322 corrected, the sites (0,0), (2,0), (1,5) reach this call | `setStartPoint` (src/Edge.js:32) | high; not executed | Fortune.Voronoi.StartVertexAsWritten | Fortune.Voronoi.StartVertex |
