# k-d tree: build and orthogonal range query

A Dafny model of the two-dimensional k-d tree of `kd-tree` (assignment 3): the
`KD_tree` constructor, which builds a balanced tree of box nodes over a point
set with an explicit stack of subdivision tasks and one index array
partitioned in place by `std::nth_element`, and the window's orthogonal range
query `calc_range_query_result`, together with the normalisation of the two
clicked corners into a query box.

The project is organised as follows:

- `geometry.dfy` (`Geometry`): points, boxes, the point-to-box distance, and box splitting.
- `seqs.dfy` (`Seqs`): sequence helpers (filter, gather, permutations).
- `selection.dfy` (`Selection`): the coordinate table, the comparator `Coord_comp`, the `nth_element` contract, and `partition_point_indexes`.
- `kdtree.dfy` (`KdTree`): the tree datatype, and a recursive reference build over index slices (`BuildNode`: one subdivision task and all the tasks it spawns). It also holds what the build guarantees: every point stored once, boxes split at the stored points, points inside their boxes, split order, medians, and balance.
- `builder.dfy` (`Builder`): the constructor's loop as written. It pops tasks from a stack, partitions their ranges in place, fills the popped node, and pushes the child tasks. It is proved to fill exactly the nodes of the reference build at exactly the same tree positions, and to leave the index array a permutation.
- `query.dfy` (`RangeQuery`): the query as written, a corrected query, the corner normalisation, and soundness and completeness results.

Coordinates are integers. The distance is the squared overshoot sum (the source returns its square root, which is zero exactly when the sum is). `DIM` is 2, the tree's only instantiation. Both the build and the query start on dimension 1.

## Model

| member | source | states |
|---|---|---|
| Geometry.SqDistance | assignment_3/assignment_3/assignment_3/kd_tree.hpp:20-30 | the distance is never negative and is zero exactly when the point lies in the closed box, boundary included |
| Geometry.SqDistanceFromZero | assignment_3/assignment_3/assignment_3/kd_tree.hpp:23-28 | the overshoot accumulated over dimensions `k..DIM-1` is non-negative, and zero iff every one of those coordinates is within the box's bounds |
| Geometry.SplitBox | assignment_3/assignment_3/assignment_3/kd_tree.hpp:117-121 | the two child boxes of a split at `v` inside the parent are well formed and inside the parent, and together they cover it; the left one holds exactly the parent's points with `p[d] <= v`, the right one those with `p[d] >= v` |
| Selection.CoordTable | assignment_3/assignment_3/assignment_3/kd_tree.hpp:90-96 | the table holds `DIM * n` values, and the entry of point `j` in block `d` is coordinate `d` of point `j` |
| Selection.BlockStartIsProduct | assignment_3/assignment_3/assignment_3/kd_tree.hpp:65 | block `d` starts at offset `d * points_count` |
| Selection.TableIndexInRange | assignment_3/assignment_3/assignment_3/kd_tree.hpp:119 | for a point index below `n`, the split value's table offset lies inside a table of `DIM * n` values, and the comparator's key reads that entry |
| Selection.KeyIsCoordinate | assignment_3/assignment_3/assignment_3/kd_tree.hpp:55-67 | over the real table, the comparator's key for point `a` is coordinate `curr_dim` of point `a` |
| Selection.KeysAreCoordinates | assignment_3/assignment_3/assignment_3/kd_tree.hpp:63-66 | the same, for every point index at once |
| Selection.NthElementContract | assignment_3/assignment_3/assignment_3/kd_tree.hpp:73 | the selection permutes the slice, and no element after position `k` compares less than any element before it or than the element at `k` |
| Selection.NthElementIsOrderStatistic | assignment_3/assignment_3/assignment_3/kd_tree.hpp:73 | any arrangement meeting the `nth_element` contract holds at `k` an element of rank `k`: at most `k` keys are smaller and more than `k` are no larger |
| Selection.PartitionPointIndexes | assignment_3/assignment_3/assignment_3/kd_tree.hpp:69-74 | only the inclusive slice `[start, end]` changes; it is a permutation of its old contents and of the whole array, and it is partitioned around `partition` |
| KdTree.Subdivide | assignment_3/assignment_3/assignment_3/kd_tree.hpp:113-115 | a range of `count` indexes is cut into `(count - 1) / 2` indexes before the median and `count / 2` after it; the right part is as large as the left or one larger |
| KdTree.SubdivideSpec | assignment_3/assignment_3/assignment_3/kd_tree.hpp:113-115 | the two parts and the median hold exactly the range's indexes; nothing before the median compares greater than it, and nothing after it compares less |
| KdTree.SubdivideOrdersCoordinates | assignment_3/assignment_3/assignment_3/kd_tree.hpp:115-119 | with the real table, the points before the median are at most its coordinate on the task's dimension, and the points after it are at least that coordinate |
| KdTree.Build | assignment_3/assignment_3/assignment_3/kd_tree.hpp:83-85 | the tree has no root exactly when there are no points |
| KdTree.BuildNodeStoresSlice | assignment_3/assignment_3/assignment_3/kd_tree.hpp:113-129 | a task stores each point of its range exactly once in its subtree, and nothing else |
| KdTree.BuildStoresEveryPointOnce | assignment_3/assignment_3/assignment_3/kd_tree.hpp:85-129 | the tree stores the input points as a multiset: each point is stored as often as it was given |
| KdTree.BuildNodeSplitsBoxes | assignment_3/assignment_3/assignment_3/kd_tree.hpp:117-121 | each child's box is its parent's box with `hi[dim]` (left) or `lo[dim]` (right) set to the parent's point, and nothing else changed; the dimension cycles level by level |
| KdTree.BuildNodeKeepsPointsInBoxes | assignment_3/assignment_3/assignment_3/kd_tree.hpp:117-121 | when the task's box holds its range, every node's box is well formed and holds every point of its subtree |
| KdTree.BuildNodeOrdersSplits | assignment_3/assignment_3/assignment_3/kd_tree.hpp:115-128 | every point of a left subtree is at most, and every point of a right subtree at least, its parent's point on the parent's dimension |
| KdTree.DistinctSplitsAreStrict | assignment_3/assignment_3/assignment_3/kd_tree.hpp:115-128 | when no coordinate repeats, that order is strict |
| KdTree.BuildNodeRootIsMedian | assignment_3/assignment_3/assignment_3/kd_tree.hpp:113-116 | a task's node stores a point of its range of rank `(count - 1) / 2` on the task's dimension |
| KdTree.BuildNodeBalanced | assignment_3/assignment_3/assignment_3/kd_tree.hpp:113-129 | in every subtree the right side holds as many points as the left, or one more, and a range of `n` indexes grows `Levels(n)` levels |
| KdTree.NodeBalanced | assignment_3/assignment_3/assignment_3/kd_tree.hpp:122-129 | two balanced children whose sizes differ by at most one, the right one larger, make a balanced node one level higher |
| KdTree.BuildIsBalanced | assignment_3/assignment_3/assignment_3/kd_tree.hpp:81-131 | the built tree is balanced and `ceil(log2(n + 1))` levels high |
| KdTree.BuildIsKdTree | assignment_3/assignment_3/assignment_3/kd_tree.hpp:98-121 | over a well-formed bounding box that holds every point, the root's box is the bounding box, boxes split at the stored points, and each subtree lies inside its node's box |
| KdTree.BuildIsOrdered | assignment_3/assignment_3/assignment_3/kd_tree.hpp:103-129 | the built tree is split-ordered from dimension 1 at the root, and strictly so when no coordinate repeats |
| Builder.ChildTasksSpec | assignment_3/assignment_3/assignment_3/kd_tree.hpp:122-129 | the child ranges and the median's index partition the parent's range; each child is smaller, on the next dimension, one step below the parent's node on its side, with the parent's box split at the median's coordinate on that side; when both exist, the right one is as large as the left or one larger |
| Builder.PushSubdivisionTasks | assignment_3/assignment_3/assignment_3/kd_tree.hpp:122-129 | the stack below the pushed tasks is untouched, and the pushed tasks partition the popped range around the median's index: each on one side of it, smaller, on the next dimension, filling the child on that side with the box split at the median's coordinate, the left one before the right one, the right one as large as the left or one larger |
| Builder.WorkOfChildren | assignment_3/assignment_3/assignment_3/kd_tree.hpp:107-129 | replacing a popped task by its children lowers the indexes still covered by one, so the loop ends |
| Builder.PendingFrame | assignment_3/assignment_3/assignment_3/kd_tree.hpp:115 | partitioning one range leaves the subtrees that pending tasks over other ranges will grow unchanged |
| Builder.PartitionedParts | assignment_3/assignment_3/assignment_3/kd_tree.hpp:114-128 | after the partition step, `[ptlo, ptlo + half - 1]`, `ptlo + half` and `[ptlo + half + 1, pthi]` are the median cut of the task's old range |
| Builder.TaskUnfolds | assignment_3/assignment_3/assignment_3/kd_tree.hpp:113-129 | after its partition step, a task's reference subtree is the node it fills over the subtrees its two child ranges grow |
| Builder.SeparateChildren | assignment_3/assignment_3/assignment_3/kd_tree.hpp:122-129 | the pushed children cover disjoint ranges at distinct positions, apart from every task still pending |
| Builder.PathIsFresh | assignment_3/assignment_3/assignment_3/kd_tree.hpp:116 | the node a popped task fills is not filled by any pending task or by its own children |
| Builder.StepKeepsInv | assignment_3/assignment_3/assignment_3/kd_tree.hpp:107-129 | one loop iteration keeps the invariant: the index array stays a permutation of `0..n-1`, pending tasks stay separate, and filled nodes plus nodes still due are the reference tree's |
| Builder.InitInv | assignment_3/assignment_3/assignment_3/kd_tree.hpp:87-104 | before the loop, the identity index array and the root task over `[0, n-1]` on dimension 1 satisfy the invariant |
| Builder.RunTasks | assignment_3/assignment_3/assignment_3/kd_tree.hpp:107-130 | the loop ends with every node of the reference tree filled, at its position and with its box and point, and the index array a permutation of `0..n-1` |
| Builder.BuildIterative | assignment_3/assignment_3/assignment_3/kd_tree.hpp:81-131 | the constructor fills exactly the nodes of the reference build: none for no points |
| RangeQuery.OrderDim | assignment_3/assignment_3/assignment_3/window.cpp:71-76 | after the swap, the pair on `d` is ordered and holds the same two values; other dimensions are untouched |
| RangeQuery.OrderCorners | assignment_3/assignment_3/assignment_3/window.cpp:71-82 | the query box is well formed, and on each dimension it holds the two clicked values |
| RangeQuery.OrderCornersContains | assignment_3/assignment_3/assignment_3/window.cpp:71-83 | a point is in the query box iff on each dimension it lies between the two clicks |
| RangeQuery.OrderCornersCanonical | assignment_3/assignment_3/assignment_3/window.cpp:71-82 | the box does not depend on which corner was clicked first, and an already ordered pair is left as it is |
| RangeQuery.QueryAsWritten | assignment_3/assignment_3/assignment_3/window.cpp:186-192 | soundness: every reported point lies in the closed query box |
| RangeQuery.QueryAsWrittenVisitsOnce | assignment_3/assignment_3/assignment_3/window.cpp:186-192 | each node is reported at most once: the answer is a sub-multiset of the stored points |
| RangeQuery.PrunedHoldsNothing | assignment_3/assignment_3/assignment_3/window.cpp:190-191 | a subtree that the query skips because the range lies beyond all its points on the split dimension contains no point of the range |
| RangeQuery.QueryAsWrittenComplete | assignment_3/assignment_3/assignment_3/window.cpp:188-191 | on a tree in which no point ties its parent's split coordinate, the answer is exactly the stored points inside the range, as a multiset |
| RangeQuery.QueryAsWrittenBuildIsFilter | assignment_3/assignment_3/assignment_3/window.cpp:83 | over a built tree, started on dimension 1 as the build is, with no coordinate repeated, the answer is the brute-force filter of the input points |
| RangeQuery.QueryAsWrittenMissesTies | assignment_3/assignment_3/assignment_3/window.cpp:190-191 | two points level on dimension 1, queried with the box they span: both are inside, the query as written reports one, and the corrected query reports both |
| RangeQuery.Query | assignment_3/assignment_3/assignment_3/window.cpp:186-192 | the corrected query (`<=` and `>=` pruning) is sound too |
| RangeQuery.QueryVisitsOnce | assignment_3/assignment_3/assignment_3/window.cpp:186-192 | the corrected query reports each node at most once |
| RangeQuery.QueryComplete | assignment_3/assignment_3/assignment_3/window.cpp:188-191 | on any split-ordered tree, ties included, the corrected query reports exactly the stored points inside the range |
| RangeQuery.QueryBuildIsFilter | assignment_3/assignment_3/assignment_3/window.cpp:83 | over a built tree, on any input, the corrected query reports exactly the input points inside the range, each as often as it was given |

## Left out

- The SDL window, renderer and event loop; drawing; `main.cpp`. Only the corner swaps of the mouse handler (window.cpp:71-82) and the query call on dimension 1 (window.cpp:83) are modelled.
- `convert_point` (screen to Cartesian coordinates): floating-point UI glue. Query corners are taken as given points.
- `calc_x_scale` / `calc_y_scale`: declared in window.hpp but never defined.
- Floating point and `std::sqrt`: coordinates are integers, and the distance is the squared overshoot sum. Its square root is zero exactly when the sum is, and the query only tests for zero.
- `shared_ptr` ownership and `parent` back-links: the algorithm never reads them. The tree is an immutable datatype, and the constructor's nodes are addressed by their path from the root.
- Placeholder children: the constructor allocates both children of every popped task. A child that never receives a task keeps its box, but its point is copied from itself in the five-argument `Box_node` constructor (kd_tree.hpp:42), so its value is indeterminate. The query visits such a child. The model treats it as absent (`Nil`); what the source would report for it is not modelled.
- The internals of `std::nth_element`: the selection is a stable insertion sort of the slice. Everything downstream relies only on its `nth_element` contract (`Selection.NthElementContract`), which holds for any conforming selection.
- Integer width: the source does its index arithmetic in 32-bit `int` (`points_count` narrowed from `points.size()` at kd_tree.hpp:83, the table size `DIM * points_count` at kd_tree.hpp:92, the offsets `curr_dim * points_count + a` at kd_tree.hpp:65 and `task.dim * points_count + point_indexes[...]` at kd_tree.hpp:119). The model's indexes are unbounded, so it assumes `DIM * n <= INT_MAX`; the narrowing of `size()` and the overflow beyond that bound are not modelled. Points added one mouse click at a time stay far below it.
- `DIM` is fixed at 2, the window's only instantiation. Table offsets `d * n` are written as `BlockStart(d, n)`, which `Selection.BlockStartIsProduct` equates with `d * n`.
- `geometric_objects.hpp` (the `Point` type) is not part of this model: a point is a sequence of `DIM` integers.
- The start dimension of the query follows the code (dimension 1, matching the build's first split), not dimension 0.

## Findings

| source | as written | input that shows it | evidently intended | confidence | as-written member | corrected member |
|---|---|---|---|---|---|---|
| assignment_3/assignment_3/assignment_3/window.cpp:190-191 | subtrees are entered only when `range.lo[dim] < point[dim]` or `range.hi[dim] > point[dim]`, yet the build puts points equal to the split value on both sides | points `(0, 5)` and `(3, 5)`, with the query box spanned by clicks on the two points: both lie inside, but the root splits on dimension 1 at 5, neither strict test holds, and only the root is reported | report every stored point inside the box, testing `<=` and `>=` | not executed | RangeQuery.QueryAsWritten, RangeQuery.QueryAsWrittenMissesTies | RangeQuery.Query, RangeQuery.QueryBuildIsFilter |
