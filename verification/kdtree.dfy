/**
 * The k-d tree of box nodes and the recursive reference build: one
 * subdivision task and everything it spawns, as a pure function of the slice
 * of the point-index array it covers.
 */
module KdTree {
  import opened Geometry
  import opened Seqs
  import opened Selection

  /**
   * A box node: its box, the point that split it, and its two subtrees.
   * `Nil` is a child that never received a subdivision task.
   */
  datatype Tree = Nil | Node(box: Box, point: Point, left: Tree, right: Tree)

  /** The dimension of the first subdivision task. */
  const BuildStartDim: Dim := 1

  /** The stored points in pre-order: node, then left subtree, then right subtree. */
  function Flatten(t: Tree): seq<Point>
  {
    match t
    case Nil => []
    case Node(_, p, l, r) => [p] + Flatten(l) + Flatten(r)
  }

  function Height(t: Tree): nat
  {
    match t
    case Nil => 0
    case Node(_, _, l, r) => 1 + if Height(l) < Height(r) then Height(r) else Height(l)
  }

  /** A task's slice after selection: the indexes before, at and after the median's rank. */
  datatype Split = Split(lo: seq<nat>, median: nat, hi: seq<nat>)

  /**
   * Selects the median of the slice on `dim` at rank `(|idx| - 1) / 2` and
   * cuts the rearranged slice around it.
   */
  function Subdivide(points: seq<Point>, coords: seq<int>, idx: seq<nat>, dim: Dim): (s: Split)
    requires |idx| > 0
    ensures |s.lo| == (|idx| - 1) / 2 && |s.hi| == |idx| / 2
    ensures |s.lo| + 1 + |s.hi| == |idx| && |s.lo| <= |s.hi| <= |s.lo| + 1
  {
    var half := (|idx| - 1) / 2;
    var r := NthElement(idx, half, CoordComp(|points|, coords, dim));
    Split(r[..half], r[half], r[half + 1..])
  }

  /**
   * The three parts hold exactly the slice's indexes, nothing before the
   * median compares greater than it and nothing after it compares less.
   */
  lemma SubdivideSpec(points: seq<Point>, coords: seq<int>, idx: seq<nat>, dim: Dim)
    requires |idx| > 0
    ensures var s := Subdivide(points, coords, idx, dim);
      var cmp := CoordComp(|points|, coords, dim);
      && multiset(s.lo) + multiset{s.median} + multiset(s.hi) == multiset(idx)
      && (forall i :: 0 <= i < |s.lo| ==> !cmp.Less(s.median, s.lo[i]))
      && (forall i :: 0 <= i < |s.hi| ==> !cmp.Less(s.hi[i], s.median))
      && (IndexesBelow(idx, |points|) ==>
            IndexesBelow(s.lo, |points|) && s.median < |points| && IndexesBelow(s.hi, |points|))
  {
    NthElementContract(idx, (|idx| - 1) / 2, CoordComp(|points|, coords, dim));
    CutAround(NthElement(idx, (|idx| - 1) / 2, CoordComp(|points|, coords, dim)), (|idx| - 1) / 2,
              CoordComp(|points|, coords, dim),
              Subdivide(points, coords, idx, dim).lo, Subdivide(points, coords, idx, dim).hi);
    if IndexesBelow(idx, |points|) {
      PermutationBelow(idx, NthElement(idx, (|idx| - 1) / 2, CoordComp(|points|, coords, dim)), |points|);
    }
  }

  /** Cutting a selected slice around position `k`: what the parts hold and how they compare. */
  lemma CutAround(r: seq<nat>, k: nat, cmp: CoordComp, lo: seq<nat>, hi: seq<nat>)
    requires k < |r| && lo == r[..k] && hi == r[k + 1..]
    requires forall i, j :: 0 <= i < k <= j < |r| ==> !cmp.Less(r[j], r[i])
    requires forall j :: k < j < |r| ==> !cmp.Less(r[j], r[k])
    ensures multiset(lo) + multiset{r[k]} + multiset(hi) == multiset(r)
    ensures forall i :: 0 <= i < |lo| ==> !cmp.Less(r[k], lo[i])
    ensures forall i :: 0 <= i < |hi| ==> !cmp.Less(hi[i], r[k])
    ensures forall n: nat :: IndexesBelow(r, n) ==> IndexesBelow(lo, n) && r[k] < n && IndexesBelow(hi, n)
  {
    assert r == lo + [r[k]] + hi;
    forall i | 0 <= i < |hi|
      ensures !cmp.Less(hi[i], r[k])
    {
      assert hi[i] == r[k + 1 + i];
    }
  }

  /** With the real coordinate table, the split order is the order of the points' coordinates. */
  lemma SubdivideOrdersCoordinates(points: seq<Point>, idx: seq<nat>, dim: Dim)
    requires |idx| > 0 && IndexesBelow(idx, |points|)
    ensures var s := Subdivide(points, CoordTable(points), idx, dim);
      && IndexesBelow(s.lo, |points|) && s.median < |points| && IndexesBelow(s.hi, |points|)
      && CoordComp(|points|, CoordTable(points), dim).Key(s.median) == points[s.median][dim]
      && (forall i :: 0 <= i < |s.lo| ==> points[s.lo[i]][dim] <= points[s.median][dim])
      && (forall i :: 0 <= i < |s.hi| ==> points[s.hi[i]][dim] >= points[s.median][dim])
  {
    SubdivideSpec(points, CoordTable(points), idx, dim);
    KeysAreCoordinates(points, dim);
  }

  /**
   * The subtree grown from one subdivision task over the index slice `idx`:
   * store the median's point, split the box at its coordinate read from the
   * table, and hand the indexes before and after it to the two children on
   * the next dimension. An empty slice gets no task.
   */
  function BuildNode(points: seq<Point>, coords: seq<int>, idx: seq<nat>, box: Box, dim: Dim): Tree
    requires IndexesBelow(idx, |points|)
    decreases |idx|
  {
    if |idx| == 0 then Nil
    else
      var s := Subdivide(points, coords, idx, dim);
      SubdivideSpec(points, coords, idx, dim);
      var v := CoordComp(|points|, coords, dim).Key(s.median);
      Node(box, points[s.median],
           BuildNode(points, coords, s.lo, LeftBox(box, dim, v), Next(dim)),
           BuildNode(points, coords, s.hi, RightBox(box, dim, v), Next(dim)))
  }

  /** One task of the build: its node over the subtrees of the two parts of its split. */
  lemma BuildNodeUnfolds(points: seq<Point>, coords: seq<int>, idx: seq<nat>, box: Box, dim: Dim,
                         lo: seq<nat>, median: nat, hi: seq<nat>, v: int)
    requires |idx| > 0 && IndexesBelow(idx, |points|)
    requires Subdivide(points, coords, idx, dim) == Split(lo, median, hi)
    requires CoordComp(|points|, coords, dim).Key(median) == v
    ensures IndexesBelow(lo, |points|) && median < |points| && IndexesBelow(hi, |points|)
    ensures BuildNode(points, coords, idx, box, dim)
         == Node(box, points[median],
                 BuildNode(points, coords, lo, LeftBox(box, dim, v), Next(dim)),
                 BuildNode(points, coords, hi, RightBox(box, dim, v), Next(dim)))
  {
    SubdivideSpec(points, coords, idx, dim);
  }

  /** The `KD_tree` constructor: no root for no points, otherwise one task over all of them. */
  function Build(bbox: Box, points: seq<Point>): (t: Tree)
    ensures t == Nil <==> |points| == 0
  {
    if |points| == 0 then Nil
    else BuildNode(points, CoordTable(points), Iota(|points|), bbox, BuildStartDim)
  }

  /* ---------------------------------------------------------------------- */
  /* What the build stores                                                  */
  /* ---------------------------------------------------------------------- */

  lemma GatherSplit(points: seq<Point>, coords: seq<int>, idx: seq<nat>, dim: Dim)
    requires |idx| > 0 && IndexesBelow(idx, |points|)
    ensures var s := Subdivide(points, coords, idx, dim);
      && IndexesBelow(s.lo, |points|) && s.median < |points| && IndexesBelow(s.hi, |points|)
      && multiset(Gather(points, idx))
         == multiset(Gather(points, s.lo)) + multiset{points[s.median]} + multiset(Gather(points, s.hi))
  {
    var s := Subdivide(points, coords, idx, dim);
    SubdivideSpec(points, coords, idx, dim);
    var r := s.lo + [s.median] + s.hi;
    GatherPermutation(points, idx, r);
    assert Gather(points, r) == Gather(points, s.lo) + [points[s.median]] + Gather(points, s.hi);
  }

  /** A task stores every point of its slice exactly once in its subtree. */
  lemma {:induction false} BuildNodeStoresSlice(points: seq<Point>, coords: seq<int>, idx: seq<nat>, box: Box, dim: Dim)
    requires IndexesBelow(idx, |points|)
    ensures multiset(Flatten(BuildNode(points, coords, idx, box, dim))) == multiset(Gather(points, idx))
    ensures |Flatten(BuildNode(points, coords, idx, box, dim))| == |idx|
    decreases |idx|, 1
  {
    if |idx| > 0 {
      SplitStoresSlice(points, coords, idx, box, dim, Subdivide(points, coords, idx, dim),
                       CoordComp(|points|, coords, dim).Key(Subdivide(points, coords, idx, dim).median));
    }
  }

  /** The step of `BuildNodeStoresSlice` for one split: the node's point plus what its two subtrees store. */
  lemma {:induction false} SplitStoresSlice(points: seq<Point>, coords: seq<int>, idx: seq<nat>, box: Box, dim: Dim,
                                            s: Split, v: int)
    requires |idx| > 0 && IndexesBelow(idx, |points|)
    requires Subdivide(points, coords, idx, dim) == s
    requires CoordComp(|points|, coords, dim).Key(s.median) == v
    ensures multiset(Flatten(BuildNode(points, coords, idx, box, dim))) == multiset(Gather(points, idx))
    ensures |Flatten(BuildNode(points, coords, idx, box, dim))| == |idx|
    decreases |idx|, 0
  {
    BuildNodeUnfolds(points, coords, idx, box, dim, s.lo, s.median, s.hi, v);
    GatherSplit(points, coords, idx, dim);
    BuildNodeStoresSlice(points, coords, s.lo, LeftBox(box, dim, v), Next(dim));
    BuildNodeStoresSlice(points, coords, s.hi, RightBox(box, dim, v), Next(dim));
    NodeStoresSlice(points, idx, s.lo, s.median, s.hi, box,
                    BuildNode(points, coords, s.lo, LeftBox(box, dim, v), Next(dim)),
                    BuildNode(points, coords, s.hi, RightBox(box, dim, v), Next(dim)));
  }

  /** A node stores its slice when its subtrees store the two parts around its point. */
  lemma NodeStoresSlice(points: seq<Point>, idx: seq<nat>, lo: seq<nat>, m: nat, hi: seq<nat>, b: Box, l: Tree, r: Tree)
    requires IndexesBelow(lo, |points|) && m < |points| && IndexesBelow(hi, |points|) && IndexesBelow(idx, |points|)
    requires multiset(Gather(points, idx))
          == multiset(Gather(points, lo)) + multiset{points[m]} + multiset(Gather(points, hi))
    requires multiset(Flatten(l)) == multiset(Gather(points, lo)) && |Flatten(l)| == |lo|
    requires multiset(Flatten(r)) == multiset(Gather(points, hi)) && |Flatten(r)| == |hi|
    requires |idx| == |lo| + 1 + |hi|
    ensures multiset(Flatten(Node(b, points[m], l, r))) == multiset(Gather(points, idx))
    ensures |Flatten(Node(b, points[m], l, r))| == |idx|
  {
  }

  /** Every input point is stored at exactly one node; no points means no root. */
  lemma BuildStoresEveryPointOnce(bbox: Box, points: seq<Point>)
    ensures multiset(Flatten(Build(bbox, points))) == multiset(points)
    ensures Build(bbox, points) == Nil <==> |points| == 0
  {
    if |points| > 0 {
      BuildNodeStoresSlice(points, CoordTable(points), Iota(|points|), bbox, BuildStartDim);
      GatherIota(points);
    }
  }

  /** Every point stored below a task is a point of its slice. */
  lemma StoredPointsComeFromSlice(points: seq<Point>, coords: seq<int>, idx: seq<nat>, box: Box, dim: Dim, q: Point)
    requires IndexesBelow(idx, |points|)
    requires q in Flatten(BuildNode(points, coords, idx, box, dim))
    ensures exists i :: 0 <= i < |idx| && points[idx[i]] == q
  {
    BuildNodeStoresSlice(points, coords, idx, box, dim);
    assert q in multiset(Gather(points, idx));
    var i :| 0 <= i < |idx| && Gather(points, idx)[i] == q;
  }

  /* ---------------------------------------------------------------------- */
  /* Geometry of the boxes                                                  */
  /* ---------------------------------------------------------------------- */

  /**
   * Every present child's box is its parent's box split at the parent's
   * point on the parent's dimension; dimensions cycle level by level.
   */
  ghost predicate BoxesSplitAtPoints(t: Tree, dim: Dim)
  {
    match t
    case Nil => true
    case Node(b, p, l, r) =>
      && (l.Node? ==> l.box == LeftBox(b, dim, p[dim]))
      && (r.Node? ==> r.box == RightBox(b, dim, p[dim]))
      && BoxesSplitAtPoints(l, Next(dim))
      && BoxesSplitAtPoints(r, Next(dim))
  }

  lemma {:induction false} BuildNodeSplitsBoxes(points: seq<Point>, idx: seq<nat>, box: Box, dim: Dim)
    requires IndexesBelow(idx, |points|)
    ensures BoxesSplitAtPoints(BuildNode(points, CoordTable(points), idx, box, dim), dim)
    ensures |idx| > 0 ==> BuildNode(points, CoordTable(points), idx, box, dim).box == box
    decreases |idx|
  {
    if |idx| > 0 {
      var s := Subdivide(points, CoordTable(points), idx, dim);
      SubdivideOrdersCoordinates(points, idx, dim);
      var v := points[s.median][dim];
      BuildNodeSplitsBoxes(points, s.lo, LeftBox(box, dim, v), Next(dim));
      BuildNodeSplitsBoxes(points, s.hi, RightBox(box, dim, v), Next(dim));
    }
  }

  /** Every point of the slice lies in `box`. */
  ghost predicate SliceInside(points: seq<Point>, idx: seq<nat>, box: Box)
    requires IndexesBelow(idx, |points|)
  {
    forall i :: 0 <= i < |idx| ==> InBox(box, points[idx[i]])
  }

  /** Every node's box is well formed and holds every point stored in its subtree. */
  ghost predicate PointsInsideBoxes(t: Tree)
  {
    match t
    case Nil => true
    case Node(b, _, l, r) =>
      && WellFormed(b)
      && (forall q :: q in Flatten(t) ==> InBox(b, q))
      && PointsInsideBoxes(l)
      && PointsInsideBoxes(r)
  }

  /** Indexes drawn from a slice inside `box` are inside `box` too. */
  lemma SubSliceInside(points: seq<Point>, idx: seq<nat>, part: seq<nat>, box: Box)
    requires IndexesBelow(idx, |points|) && SliceInside(points, idx, box)
    requires multiset(part) <= multiset(idx)
    ensures IndexesBelow(part, |points|) && SliceInside(points, part, box)
  {
    forall i | 0 <= i < |part|
      ensures part[i] < |points| && InBox(box, points[part[i]])
    {
      assert part[i] in multiset(part);
      assert part[i] in multiset(idx);
      var k :| 0 <= k < |idx| && idx[k] == part[i];
    }
  }

  /** A slice inside `box` whose points lie at most `v` on `dim` is inside the left half. */
  lemma SliceInsideLeft(points: seq<Point>, part: seq<nat>, box: Box, dim: Dim, v: int)
    requires IndexesBelow(part, |points|) && SliceInside(points, part, box)
    requires WellFormed(box) && box.lo[dim] <= v <= box.hi[dim]
    requires forall i :: 0 <= i < |part| ==> points[part[i]][dim] <= v
    ensures WellFormed(LeftBox(box, dim, v)) && SliceInside(points, part, LeftBox(box, dim, v))
  {
    SplitBox(box, dim, v, box.lo);
    forall i | 0 <= i < |part|
      ensures InBox(LeftBox(box, dim, v), points[part[i]])
    {
      SplitBox(box, dim, v, points[part[i]]);
    }
  }

  lemma SliceInsideRight(points: seq<Point>, part: seq<nat>, box: Box, dim: Dim, v: int)
    requires IndexesBelow(part, |points|) && SliceInside(points, part, box)
    requires WellFormed(box) && box.lo[dim] <= v <= box.hi[dim]
    requires forall i :: 0 <= i < |part| ==> points[part[i]][dim] >= v
    ensures WellFormed(RightBox(box, dim, v)) && SliceInside(points, part, RightBox(box, dim, v))
  {
    SplitBox(box, dim, v, box.lo);
    forall i | 0 <= i < |part|
      ensures InBox(RightBox(box, dim, v), points[part[i]])
    {
      SplitBox(box, dim, v, points[part[i]]);
    }
  }

  lemma {:induction false} BuildNodeKeepsPointsInBoxes(points: seq<Point>, idx: seq<nat>, box: Box, dim: Dim)
    requires IndexesBelow(idx, |points|)
    requires WellFormed(box) && SliceInside(points, idx, box)
    ensures PointsInsideBoxes(BuildNode(points, CoordTable(points), idx, box, dim))
    decreases |idx|
  {
    if |idx| > 0 {
      var coords := CoordTable(points);
      var s := Subdivide(points, coords, idx, dim);
      SubdivideSpec(points, coords, idx, dim);
      SubdivideOrdersCoordinates(points, idx, dim);
      var v := points[s.median][dim];
      assert InBox(box, points[s.median]) by {
        SubSliceInside(points, idx, [s.median], box);
      }
      SubSliceInside(points, idx, s.lo, box);
      SubSliceInside(points, idx, s.hi, box);
      SliceInsideLeft(points, s.lo, box, dim, v);
      SliceInsideRight(points, s.hi, box, dim, v);
      BuildNodeKeepsPointsInBoxes(points, s.lo, LeftBox(box, dim, v), Next(dim));
      BuildNodeKeepsPointsInBoxes(points, s.hi, RightBox(box, dim, v), Next(dim));
      forall q | q in Flatten(BuildNode(points, coords, idx, box, dim))
        ensures InBox(box, q)
      {
        StoredPointsComeFromSlice(points, coords, idx, box, dim, q);
      }
    }
  }

  /* ---------------------------------------------------------------------- */
  /* Order along the split dimensions                                       */
  /* ---------------------------------------------------------------------- */

  /**
   * Every point of a left subtree is no greater, and every point of a right
   * subtree no smaller, than its parent's point on the parent's dimension.
   */
  ghost predicate SplitOrdered(t: Tree, dim: Dim)
  {
    match t
    case Nil => true
    case Node(_, p, l, r) =>
      && (forall q :: q in Flatten(l) ==> q[dim] <= p[dim])
      && (forall q :: q in Flatten(r) ==> q[dim] >= p[dim])
      && SplitOrdered(l, Next(dim))
      && SplitOrdered(r, Next(dim))
  }

  /** As `SplitOrdered`, with no point of a subtree tying its parent's split coordinate. */
  ghost predicate StrictlySplit(t: Tree, dim: Dim)
  {
    match t
    case Nil => true
    case Node(_, p, l, r) =>
      && (forall q :: q in Flatten(l) ==> q[dim] < p[dim])
      && (forall q :: q in Flatten(r) ==> q[dim] > p[dim])
      && StrictlySplit(l, Next(dim))
      && StrictlySplit(r, Next(dim))
  }

  lemma {:induction false} BuildNodeOrdersSplits(points: seq<Point>, idx: seq<nat>, box: Box, dim: Dim)
    requires IndexesBelow(idx, |points|)
    ensures SplitOrdered(BuildNode(points, CoordTable(points), idx, box, dim), dim)
    decreases |idx|
  {
    if |idx| > 0 {
      var coords := CoordTable(points);
      var s := Subdivide(points, coords, idx, dim);
      SubdivideOrdersCoordinates(points, idx, dim);
      var v := points[s.median][dim];
      var lb, rb := LeftBox(box, dim, v), RightBox(box, dim, v);
      BuildNodeOrdersSplits(points, s.lo, lb, Next(dim));
      BuildNodeOrdersSplits(points, s.hi, rb, Next(dim));
      forall q | q in Flatten(BuildNode(points, coords, s.lo, lb, Next(dim)))
        ensures q[dim] <= v
      {
        StoredPointsComeFromSlice(points, coords, s.lo, lb, Next(dim), q);
      }
      forall q | q in Flatten(BuildNode(points, coords, s.hi, rb, Next(dim)))
        ensures q[dim] >= v
      {
        StoredPointsComeFromSlice(points, coords, s.hi, rb, Next(dim), q);
      }
    }
  }

  /** No two points share a coordinate in any dimension (hence no point occurs twice). */
  ghost predicate DistinctCoordinates(s: seq<Point>)
  {
    forall i, j, d :: 0 <= i < j < |s| && 0 <= d < DIM ==> s[i][d] != s[j][d]
  }

  lemma DistinctCoordinatesPermutation(a: seq<Point>, b: seq<Point>)
    requires multiset(a) == multiset(b) && DistinctCoordinates(a)
    ensures DistinctCoordinates(b)
  {
    assert NoDuplicates(a) by {
      forall i, j | 0 <= i < j < |a|
        ensures a[i] != a[j]
      {
        assert a[i][0] != a[j][0];
      }
    }
    NoDuplicatesOccurOnce(a);
    forall i, j, d | 0 <= i < j < |b| && 0 <= d < DIM
      ensures b[i][d] != b[j][d]
    {
      if b[i] == b[j] {
        TwoOccurrences(b, i, j);
        assert false;
      }
      assert b[i] in multiset(a) && b[j] in multiset(a);
      var x :| 0 <= x < |a| && a[x] == b[i];
      var y :| 0 <= y < |a| && a[y] == b[j];
      assert x != y;
      if x < y {
        assert a[x][d] != a[y][d];
      } else {
        assert a[y][d] != a[x][d];
      }
    }
  }

  lemma DistinctCoordinatesOfParts(p: Point, fl: seq<Point>, fr: seq<Point>)
    requires DistinctCoordinates([p] + fl + fr)
    ensures DistinctCoordinates(fl) && DistinctCoordinates(fr)
    ensures forall q, d :: q in fl && 0 <= d < DIM ==> q[d] != p[d]
    ensures forall q, d :: q in fr && 0 <= d < DIM ==> q[d] != p[d]
  {
    var all := [p] + fl + fr;
    forall i, j, d | 0 <= i < j < |fl| && 0 <= d < DIM
      ensures fl[i][d] != fl[j][d]
    {
      assert fl[i] == all[1 + i] && fl[j] == all[1 + j];
    }
    forall i, j, d | 0 <= i < j < |fr| && 0 <= d < DIM
      ensures fr[i][d] != fr[j][d]
    {
      assert fr[i] == all[1 + |fl| + i] && fr[j] == all[1 + |fl| + j];
    }
    forall q, d | q in fl && 0 <= d < DIM
      ensures q[d] != p[d]
    {
      var i :| 0 <= i < |fl| && fl[i] == q;
      assert all[0] == p && all[1 + i] == q;
    }
    forall q, d | q in fr && 0 <= d < DIM
      ensures q[d] != p[d]
    {
      var i :| 0 <= i < |fr| && fr[i] == q;
      assert all[0] == p && all[1 + |fl| + i] == q;
    }
  }

  /** With distinct coordinates, the order of a split tree is strict. */
  lemma {:induction false} DistinctSplitsAreStrict(t: Tree, dim: Dim)
    requires SplitOrdered(t, dim) && DistinctCoordinates(Flatten(t))
    ensures StrictlySplit(t, dim)
  {
    match t
    case Nil =>
    case Node(_, p, l, r) =>
      DistinctCoordinatesOfParts(p, Flatten(l), Flatten(r));
      DistinctSplitsAreStrict(l, Next(dim));
      DistinctSplitsAreStrict(r, Next(dim));
  }

  /* ---------------------------------------------------------------------- */
  /* The median at every node                                               */
  /* ---------------------------------------------------------------------- */

  function IndexBelow(points: seq<Point>, dim: Dim, v: int): nat -> bool
  {
    (i: nat) => i < |points| && points[i][dim] < v
  }

  function IndexAtMost(points: seq<Point>, dim: Dim, v: int): nat -> bool
  {
    (i: nat) => i < |points| && points[i][dim] <= v
  }

  /**
   * A task stores the median of its slice on its dimension: a point of the
   * slice with at most `(|idx| - 1) / 2` slice points strictly below it and
   * more than that many at or below it.
   */
  lemma BuildNodeRootIsMedian(points: seq<Point>, idx: seq<nat>, box: Box, dim: Dim)
    requires IndexesBelow(idx, |points|) && |idx| > 0
    ensures var t := BuildNode(points, CoordTable(points), idx, box, dim);
      && t.Node?
      && t.point in Gather(points, idx)
      && |Filter(idx, IndexBelow(points, dim, t.point[dim]))| <= (|idx| - 1) / 2
      && |Filter(idx, IndexAtMost(points, dim, t.point[dim]))| > (|idx| - 1) / 2
  {
    var coords := CoordTable(points);
    var half := (|idx| - 1) / 2;
    var cmp := CoordComp(|points|, coords, dim);
    var r := NthElement(idx, half, cmp);
    NthElementContract(idx, half, cmp);
    PermutationBelow(idx, r, |points|);
    KeysAreCoordinates(points, dim);
    var m := r[half];
    assert Subdivide(points, coords, idx, dim).median == m;
    var v := points[m][dim];
    NthElementIsOrderStatistic(idx, r, half, cmp);
    FilterSameOn(idx, KeyBelow(cmp, v), IndexBelow(points, dim, v));
    FilterSameOn(idx, KeyAtMost(cmp, v), IndexAtMost(points, dim, v));
    assert m in multiset(idx);
    var j :| 0 <= j < |idx| && idx[j] == m;
    assert Gather(points, idx)[j] == points[m];
  }

  /* ---------------------------------------------------------------------- */
  /* Balance                                                                */
  /* ---------------------------------------------------------------------- */

  /** At every node the right subtree holds as many points as the left, or one more. */
  ghost predicate Balanced(t: Tree)
  {
    match t
    case Nil => true
    case Node(_, _, l, r) =>
      && |Flatten(l)| <= |Flatten(r)| <= |Flatten(l)| + 1
      && Balanced(l)
      && Balanced(r)
  }

  /** The height of a build over `n` points. */
  function Levels(n: nat): nat
  {
    if n == 0 then 0 else 1 + Levels(n / 2)
  }

  function Pow2(k: nat): nat
  {
    if k == 0 then 1 else 2 * Pow2(k - 1)
  }

  lemma {:induction false} LevelsMonotone(a: nat, b: nat)
    requires a <= b
    ensures Levels(a) <= Levels(b)
    decreases b
  {
    if a > 0 {
      LevelsMonotone(a / 2, b / 2);
    }
  }

  /** `Levels(n)` is the least `h` with `n < 2^h`, that is `ceil(log2(n + 1))`. */
  lemma {:induction false} LevelsIsLog(n: nat)
    ensures n < Pow2(Levels(n))
    ensures n > 0 ==> Pow2(Levels(n) - 1) <= n
  {
    if n > 0 {
      LevelsIsLog(n / 2);
    }
  }

  lemma {:induction false} BuildNodeBalanced(points: seq<Point>, coords: seq<int>, idx: seq<nat>, box: Box, dim: Dim)
    requires IndexesBelow(idx, |points|)
    ensures Balanced(BuildNode(points, coords, idx, box, dim))
    ensures Height(BuildNode(points, coords, idx, box, dim)) == Levels(|idx|)
    decreases |idx|, 1
  {
    if |idx| > 0 {
      SplitBalanced(points, coords, idx, box, dim, Subdivide(points, coords, idx, dim),
                    CoordComp(|points|, coords, dim).Key(Subdivide(points, coords, idx, dim).median));
    }
  }

  /** The step of `BuildNodeBalanced` for one split. */
  lemma {:induction false} SplitBalanced(points: seq<Point>, coords: seq<int>, idx: seq<nat>, box: Box, dim: Dim,
                                         s: Split, v: int)
    requires |idx| > 0 && IndexesBelow(idx, |points|)
    requires Subdivide(points, coords, idx, dim) == s
    requires CoordComp(|points|, coords, dim).Key(s.median) == v
    ensures Balanced(BuildNode(points, coords, idx, box, dim))
    ensures Height(BuildNode(points, coords, idx, box, dim)) == Levels(|idx|)
    decreases |idx|, 0
  {
    BuildNodeUnfolds(points, coords, idx, box, dim, s.lo, s.median, s.hi, v);
    BuildNodeBalanced(points, coords, s.lo, LeftBox(box, dim, v), Next(dim));
    BuildNodeBalanced(points, coords, s.hi, RightBox(box, dim, v), Next(dim));
    BuildNodeStoresSlice(points, coords, s.lo, LeftBox(box, dim, v), Next(dim));
    BuildNodeStoresSlice(points, coords, s.hi, RightBox(box, dim, v), Next(dim));
    NodeBalanced(box, points[s.median],
                 BuildNode(points, coords, s.lo, LeftBox(box, dim, v), Next(dim)),
                 BuildNode(points, coords, s.hi, RightBox(box, dim, v), Next(dim)),
                 |s.lo|, |s.hi|, |idx|);
  }

  /** Two balanced subtrees whose sizes differ by at most one, the right one larger, make a balanced node. */
  lemma NodeBalanced(b: Box, p: Point, l: Tree, r: Tree, nl: nat, nr: nat, n: nat)
    requires Balanced(l) && Balanced(r)
    requires |Flatten(l)| == nl && |Flatten(r)| == nr && nl <= nr <= nl + 1 && n == nl + 1 + nr
    requires Height(l) == Levels(nl) && Height(r) == Levels(nr)
    ensures Balanced(Node(b, p, l, r))
    ensures Height(Node(b, p, l, r)) == Levels(n)
  {
    LevelsMonotone(nl, nr);
    assert n / 2 == nr;
  }

  /** The built tree is balanced and `ceil(log2(n + 1))` levels high. */
  lemma BuildIsBalanced(bbox: Box, points: seq<Point>)
    ensures Balanced(Build(bbox, points))
    ensures |points| < Pow2(Height(Build(bbox, points)))
    ensures |points| > 0 ==> Pow2(Height(Build(bbox, points)) - 1) <= |points|
  {
    if |points| > 0 {
      BuildNodeBalanced(points, CoordTable(points), Iota(|points|), bbox, BuildStartDim);
    }
    HeightIsLog(Height(Build(bbox, points)), |points|);
  }

  lemma HeightIsLog(h: nat, n: nat)
    requires h == Levels(n)
    ensures n < Pow2(h)
    ensures n > 0 ==> Pow2(h - 1) <= n
  {
    LevelsIsLog(n);
  }

  /* ---------------------------------------------------------------------- */
  /* The whole build                                                        */
  /* ---------------------------------------------------------------------- */

  /**
   * Over a well-formed bounding box holding every input point, the built tree
   * splits boxes at its points, keeps every point inside every enclosing box,
   * and orders each subtree against its parent on the parent's dimension,
   * starting from the first split dimension at the root.
   */
  lemma BuildIsKdTree(bbox: Box, points: seq<Point>)
    requires WellFormed(bbox)
    requires forall i :: 0 <= i < |points| ==> InBox(bbox, points[i])
    ensures BoxesSplitAtPoints(Build(bbox, points), BuildStartDim)
    ensures PointsInsideBoxes(Build(bbox, points))
    ensures Build(bbox, points).Node? ==> Build(bbox, points).box == bbox
  {
    if |points| > 0 {
      var idx := Iota(|points|);
      BuildNodeSplitsBoxes(points, idx, bbox, BuildStartDim);
      BuildNodeKeepsPointsInBoxes(points, idx, bbox, BuildStartDim);
    }
  }

  /** Split order holds on any input, and is strict when no coordinate repeats. */
  lemma BuildIsOrdered(bbox: Box, points: seq<Point>)
    ensures SplitOrdered(Build(bbox, points), BuildStartDim)
    ensures DistinctCoordinates(points) ==> StrictlySplit(Build(bbox, points), BuildStartDim)
  {
    if |points| > 0 {
      BuildNodeOrdersSplits(points, Iota(|points|), bbox, BuildStartDim);
    }
    if DistinctCoordinates(points) {
      BuildStoresEveryPointOnce(bbox, points);
      DistinctCoordinatesPermutation(points, Flatten(Build(bbox, points)));
      DistinctSplitsAreStrict(Build(bbox, points), BuildStartDim);
    }
  }
}
