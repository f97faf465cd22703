/**
 * The window's orthogonal range query over the k-d tree, and the
 * normalisation of the two clicked corners into a query box.
 */
module RangeQuery {
  import opened Geometry
  import opened Seqs
  import opened KdTree

  /** The dimension the window's query call starts on; the same as the build's. */
  const QueryStartDim: Dim := 1

  /** The brute-force test: `p` is at distance zero from the range. */
  function InsideOf(range: Box): Point -> bool
  {
    (p: Point) => SqDistance(range, p) == 0
  }

  /* ---------------------------------------------------------------------- */
  /* The query box                                                          */
  /* ---------------------------------------------------------------------- */

  /** Swaps the two corners' coordinates on `d` when the first is the greater. */
  function OrderDim(b: Box, d: Dim): (r: Box)
    ensures r.lo[d] <= r.hi[d]
    ensures multiset{r.lo[d], r.hi[d]} == multiset{b.lo[d], b.hi[d]}
    ensures forall e :: 0 <= e < DIM && e != d ==> r.lo[e] == b.lo[e] && r.hi[e] == b.hi[e]
  {
    if b.lo[d] > b.hi[d] then Box(b.lo[d := b.hi[d]], b.hi[d := b.lo[d]]) else b
  }

  /**
   * The first click `lo` and the second click `hi` made into a query box:
   * each dimension's pair is put in order, dimension 0 first.
   */
  function OrderCorners(lo: Point, hi: Point): (b: Box)
    ensures WellFormed(b)
    ensures forall d :: 0 <= d < DIM ==> multiset{b.lo[d], b.hi[d]} == multiset{lo[d], hi[d]}
  {
    OrderDim(OrderDim(Box(lo, hi), 0), 1)
  }

  /** A point is in the normalised box iff on every dimension it lies between the two clicks. */
  lemma OrderCornersContains(a: Point, c: Point, p: Point)
    ensures InBox(OrderCorners(a, c), p) <==>
            forall d :: 0 <= d < DIM ==> (a[d] <= p[d] <= c[d] || c[d] <= p[d] <= a[d])
  {
    var b := OrderCorners(a, c);
    forall d | 0 <= d < DIM
      ensures b.lo[d] == (if a[d] <= c[d] then a[d] else c[d])
      ensures b.hi[d] == (if a[d] <= c[d] then c[d] else a[d])
    {
      MinMaxOfPair(b.lo[d], b.hi[d], a[d], c[d]);
    }
  }

  /** The order of the clicks does not matter, and an ordered box is left as it is. */
  lemma OrderCornersCanonical(a: Point, c: Point)
    ensures OrderCorners(a, c) == OrderCorners(c, a)
    ensures WellFormed(Box(a, c)) ==> OrderCorners(a, c) == Box(a, c)
  {
    var b, b' := OrderCorners(a, c), OrderCorners(c, a);
    forall d | 0 <= d < DIM
      ensures b.lo[d] == b'.lo[d] && b.hi[d] == b'.hi[d]
    {
      MinMaxOfPair(b.lo[d], b.hi[d], a[d], c[d]);
      MinMaxOfPair(b'.lo[d], b'.hi[d], c[d], a[d]);
    }
    assert b.lo == b'.lo && b.hi == b'.hi;
    if WellFormed(Box(a, c)) {
      forall d | 0 <= d < DIM
        ensures b.lo[d] == a[d] && b.hi[d] == c[d]
      {
        MinMaxOfPair(b.lo[d], b.hi[d], a[d], c[d]);
      }
      assert b.lo == a && b.hi == c;
    }
  }

  /** An ordered pair with the same values as `{x, y}` is `(min, max)`. */
  lemma MinMaxOfPair(l: int, h: int, x: int, y: int)
    requires l <= h && multiset{l, h} == multiset{x, y}
    ensures l == (if x <= y then x else y) && h == (if x <= y then y else x)
  {
    assert l in multiset{x, y} && h in multiset{x, y};
    if l == x {
      assert multiset{l, h} - multiset{x} == multiset{h};
    } else {
      assert multiset{l, h} - multiset{y} == multiset{h};
    }
  }

  /* ---------------------------------------------------------------------- */
  /* The query                                                              */
  /* ---------------------------------------------------------------------- */

  /**
   * `calc_range_query_result` as written: report the node's point when it is
   * at distance zero from the range, enter the left subtree only when
   * `range.lo[dim] < point[dim]` and the right one only when
   * `range.hi[dim] > point[dim]`, cycling the dimension. The result is in the
   * order the points are appended: node, left subtree, right subtree.
   */
  function QueryAsWritten(t: Tree, range: Box, dim: Dim): (r: seq<Point>)
    ensures forall i :: 0 <= i < |r| ==> InBox(range, r[i])
  {
    match t
    case Nil => []
    case Node(_, p, left, right) =>
      var here := if SqDistance(range, p) == 0 then [p] else [];
      var l := if range.lo[dim] < p[dim] then QueryAsWritten(left, range, Next(dim)) else [];
      var rr := if range.hi[dim] > p[dim] then QueryAsWritten(right, range, Next(dim)) else [];
      here + l + rr
  }

  /**
   * The query with the pruning tests relaxed to `range.lo[dim] <= point[dim]`
   * and `range.hi[dim] >= point[dim]`, so that a subtree whose points may tie
   * the split coordinate is still entered.
   */
  function Query(t: Tree, range: Box, dim: Dim): (r: seq<Point>)
    ensures forall i :: 0 <= i < |r| ==> InBox(range, r[i])
  {
    match t
    case Nil => []
    case Node(_, p, left, right) =>
      var here := if SqDistance(range, p) == 0 then [p] else [];
      var l := if range.lo[dim] <= p[dim] then Query(left, range, Next(dim)) else [];
      var rr := if range.hi[dim] >= p[dim] then Query(right, range, Next(dim)) else [];
      here + l + rr
  }

  /** Each node is reported at most once: the answer is a sub-multiset of the stored points. */
  lemma {:induction false} QueryAsWrittenVisitsOnce(t: Tree, range: Box, dim: Dim)
    ensures multiset(QueryAsWritten(t, range, dim)) <= multiset(Flatten(t))
  {
    match t
    case Nil =>
    case Node(_, p, left, right) =>
      var here := if SqDistance(range, p) == 0 then [p] else [];
      var l := if range.lo[dim] < p[dim] then QueryAsWritten(left, range, Next(dim)) else [];
      var rr := if range.hi[dim] > p[dim] then QueryAsWritten(right, range, Next(dim)) else [];
      assert QueryAsWritten(t, range, dim) == here + l + rr;
      assert multiset(l) <= multiset(Flatten(left)) by {
        QueryAsWrittenVisitsOnce(left, range, Next(dim));
      }
      assert multiset(rr) <= multiset(Flatten(right)) by {
        QueryAsWrittenVisitsOnce(right, range, Next(dim));
      }
      SubMultisetSum(multiset(here), multiset(l), multiset(rr), multiset([p]), multiset(Flatten(left)), multiset(Flatten(right)));
  }

  lemma {:induction false} QueryVisitsOnce(t: Tree, range: Box, dim: Dim)
    ensures multiset(Query(t, range, dim)) <= multiset(Flatten(t))
  {
    match t
    case Nil =>
    case Node(_, p, left, right) =>
      var here := if SqDistance(range, p) == 0 then [p] else [];
      var l := if range.lo[dim] <= p[dim] then Query(left, range, Next(dim)) else [];
      var rr := if range.hi[dim] >= p[dim] then Query(right, range, Next(dim)) else [];
      assert Query(t, range, dim) == here + l + rr;
      assert multiset(l) <= multiset(Flatten(left)) by {
        QueryVisitsOnce(left, range, Next(dim));
      }
      assert multiset(rr) <= multiset(Flatten(right)) by {
        QueryVisitsOnce(right, range, Next(dim));
      }
      SubMultisetSum(multiset(here), multiset(l), multiset(rr), multiset([p]), multiset(Flatten(left)), multiset(Flatten(right)));
  }

  /** The brute-force answer over a node: its own point if inside, then each subtree's answer. */
  lemma FilterFlatten(p: Point, l: Tree, r: Tree, range: Box, b: Box)
    ensures Filter(Flatten(Node(b, p, l, r)), InsideOf(range))
         == FilterOne(p, InsideOf(range)) + Filter(Flatten(l), InsideOf(range)) + Filter(Flatten(r), InsideOf(range))
  {
    var f := InsideOf(range);
    var fl, fr := Flatten(l), Flatten(r);
    FilterConcat([p] + fl, fr, f);
    FilterConcat([p], fl, f);
    FilterSingleton(p, f);
  }

  /** A subtree pruned because the range lies beyond every one of its points holds no answer. */
  lemma PrunedHoldsNothing(s: seq<Point>, range: Box, dim: Dim, below: bool, v: int)
    requires below ==> range.lo[dim] > v && forall q :: q in s ==> q[dim] <= v
    requires !below ==> range.hi[dim] < v && forall q :: q in s ==> q[dim] >= v
    ensures Filter(s, InsideOf(range)) == []
  {
    forall i | 0 <= i < |s|
      ensures !InsideOf(range)(s[i])
    {
      assert s[i] in s;
    }
    FilterNone(s, InsideOf(range));
  }

  /** On a tree split in order, the query finds every stored point inside the range. */
  lemma {:induction false} QueryComplete(t: Tree, range: Box, dim: Dim)
    requires SplitOrdered(t, dim)
    ensures multiset(Query(t, range, dim)) == multiset(Filter(Flatten(t), InsideOf(range)))
  {
    match t
    case Nil =>
    case Node(b, p, left, right) =>
      var f := InsideOf(range);
      var here := if SqDistance(range, p) == 0 then [p] else [];
      var l := if range.lo[dim] <= p[dim] then Query(left, range, Next(dim)) else [];
      var rr := if range.hi[dim] >= p[dim] then Query(right, range, Next(dim)) else [];
      assert Query(t, range, dim) == here + l + rr;
      assert here == FilterOne(p, f);
      FilterFlatten(p, left, right, range, b);
      assert multiset(l) == multiset(Filter(Flatten(left), f)) by {
        if range.lo[dim] <= p[dim] {
          QueryComplete(left, range, Next(dim));
        } else {
          PrunedHoldsNothing(Flatten(left), range, dim, true, p[dim]);
        }
      }
      assert multiset(rr) == multiset(Filter(Flatten(right), f)) by {
        if range.hi[dim] >= p[dim] {
          QueryComplete(right, range, Next(dim));
        } else {
          PrunedHoldsNothing(Flatten(right), range, dim, false, p[dim]);
        }
      }
  }

  /** The query as written is complete on a tree in which no point ties its parent's split. */
  lemma {:induction false} QueryAsWrittenComplete(t: Tree, range: Box, dim: Dim)
    requires StrictlySplit(t, dim)
    ensures multiset(QueryAsWritten(t, range, dim)) == multiset(Filter(Flatten(t), InsideOf(range)))
  {
    match t
    case Nil =>
    case Node(b, p, left, right) =>
      var f := InsideOf(range);
      var here := if SqDistance(range, p) == 0 then [p] else [];
      var l := if range.lo[dim] < p[dim] then QueryAsWritten(left, range, Next(dim)) else [];
      var rr := if range.hi[dim] > p[dim] then QueryAsWritten(right, range, Next(dim)) else [];
      assert QueryAsWritten(t, range, dim) == here + l + rr;
      assert here == FilterOne(p, f);
      FilterFlatten(p, left, right, range, b);
      assert multiset(l) == multiset(Filter(Flatten(left), f)) by {
        if range.lo[dim] < p[dim] {
          QueryAsWrittenComplete(left, range, Next(dim));
        } else {
          assert forall q :: q in Flatten(left) ==> q[dim] <= p[dim] - 1;
          PrunedHoldsNothing(Flatten(left), range, dim, true, p[dim] - 1);
        }
      }
      assert multiset(rr) == multiset(Filter(Flatten(right), f)) by {
        if range.hi[dim] > p[dim] {
          QueryAsWrittenComplete(right, range, Next(dim));
        } else {
          assert forall q :: q in Flatten(right) ==> q[dim] >= p[dim] + 1;
          PrunedHoldsNothing(Flatten(right), range, dim, false, p[dim] + 1);
        }
      }
  }

  /* ---------------------------------------------------------------------- */
  /* Queries over a built tree                                              */
  /* ---------------------------------------------------------------------- */

  /**
   * A query over the built tree, started on the build's first dimension,
   * reports exactly the input points inside the range, each as often as it
   * was given.
   */
  lemma QueryBuildIsFilter(bbox: Box, points: seq<Point>, range: Box)
    ensures multiset(Query(Build(bbox, points), range, QueryStartDim))
         == multiset(Filter(points, InsideOf(range)))
  {
    var t := Build(bbox, points);
    BuildIsOrdered(bbox, points);
    QueryComplete(t, range, QueryStartDim);
    BuildStoresEveryPointOnce(bbox, points);
    FilterPermutation(Flatten(t), points, InsideOf(range));
  }

  /** With no coordinate repeated on any dimension, the query as written is exact too. */
  lemma QueryAsWrittenBuildIsFilter(bbox: Box, points: seq<Point>, range: Box)
    requires DistinctCoordinates(points)
    ensures multiset(QueryAsWritten(Build(bbox, points), range, QueryStartDim))
         == multiset(Filter(points, InsideOf(range)))
  {
    var t := Build(bbox, points);
    BuildIsOrdered(bbox, points);
    QueryAsWrittenComplete(t, range, QueryStartDim);
    BuildStoresEveryPointOnce(bbox, points);
    FilterPermutation(Flatten(t), points, InsideOf(range));
  }

  /**
   * Two points level on dimension 1, queried with a box whose corners are
   * the points themselves: whichever becomes the root, the query as written
   * stops there, because neither strict test holds, and reports one point
   * where two are inside. The relaxed query reports both.
   */
  lemma QueryAsWrittenMissesTies(bbox: Box, a: Point, c: Point)
    requires a[1] == c[1]
    ensures var points := [a, c];
      var range := OrderCorners(a, c);
      var t := Build(bbox, points);
      && |Filter(points, InsideOf(range))| == 2
      && |QueryAsWritten(t, range, QueryStartDim)| == 1
      && |Query(t, range, QueryStartDim)| == 2
  {
    var points := [a, c];
    var range := OrderCorners(a, c);
    var t := Build(bbox, points);
    TiedCornersInside(a, c);
    TiedRoot(bbox, a, c);
    assert QueryAsWritten(t, range, QueryStartDim) == [t.point];
    assert |Query(t, range, QueryStartDim)| == 2 by {
      QueryBuildIsFilter(bbox, points, range);
      assert |multiset(Query(t, range, QueryStartDim))| == |multiset(Filter(points, InsideOf(range)))|;
    }
  }

  /** Both clicks lie in the box they span, which is flat on dimension 1 when they are level. */
  lemma TiedCornersInside(a: Point, c: Point)
    requires a[1] == c[1]
    ensures Filter([a, c], InsideOf(OrderCorners(a, c))) == [a, c]
    ensures OrderCorners(a, c).lo[1] == a[1] == OrderCorners(a, c).hi[1]
  {
    var range := OrderCorners(a, c);
    OrderCornersContains(a, c, a);
    OrderCornersContains(a, c, c);
    FilterAll([a, c], InsideOf(range));
    assert multiset{range.lo[1], range.hi[1]} == multiset{a[1], c[1]};
    assert range.lo[1] in multiset{a[1], c[1]} && range.hi[1] in multiset{a[1], c[1]};
  }

  /** The root of a tree over two points is one of them. */
  lemma TiedRoot(bbox: Box, a: Point, c: Point)
    ensures Build(bbox, [a, c]).Node?
    ensures Build(bbox, [a, c]).point == a || Build(bbox, [a, c]).point == c
  {
    var t := Build(bbox, [a, c]);
    BuildStoresEveryPointOnce(bbox, [a, c]);
    assert Flatten(t)[0] == t.point;
    assert t.point in multiset([a, c]);
  }
}
