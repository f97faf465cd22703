/**
 * Points, axis-aligned boxes and the point-to-box distance used both to
 * build the k-d tree and to answer range queries.
 */
module Geometry {

  /** Number of dimensions: the window instantiates the tree as `KD_tree<2>`. */
  const DIM: nat := 2

  /** A dimension index. */
  type Dim = d: nat | d < DIM

  /** A point: one coordinate per dimension. */
  type Point = p: seq<int> | |p| == DIM witness [0, 0]

  /** An axis-aligned box, closed on both ends in every dimension. */
  datatype Box = Box(lo: Point, hi: Point)

  /** The dimension split one level further down the tree. */
  function Next(d: Dim): Dim
  {
    (d + 1) % DIM
  }

  /** `lo[d] <= hi[d]` in every dimension. */
  predicate WellFormed(b: Box)
  {
    forall d :: 0 <= d < DIM ==> b.lo[d] <= b.hi[d]
  }

  /** `p` lies inside the closed box `b` (boundary included). */
  predicate InBox(b: Box, p: Point)
  {
    forall d :: 0 <= d < DIM ==> b.lo[d] <= p[d] <= b.hi[d]
  }

  /** Every point inside `inner` is inside `outer`. */
  predicate BoxWithin(inner: Box, outer: Box)
  {
    forall d :: 0 <= d < DIM ==> outer.lo[d] <= inner.lo[d] && inner.hi[d] <= outer.hi[d]
  }

  function Square(x: int): int
  {
    x * x
  }

  /** What dimension `d` adds to the squared distance: the two independent overshoot tests. */
  function Overshoot(b: Box, p: Point, d: Dim): int
  {
    (if p[d] < b.lo[d] then Square(b.lo[d] - p[d]) else 0)
    + (if p[d] > b.hi[d] then Square(p[d] - b.hi[d]) else 0)
  }

  /** Squared distance accumulated over dimensions `k .. DIM-1`. */
  function SqDistanceFrom(b: Box, p: Point, k: nat): int
    requires k <= DIM
    decreases DIM - k
  {
    if k == DIM then 0 else Overshoot(b, p, k) + SqDistanceFrom(b, p, k + 1)
  }

  lemma {:induction false} SqDistanceFromZero(b: Box, p: Point, k: nat)
    requires k <= DIM
    ensures SqDistanceFrom(b, p, k) >= 0
    ensures SqDistanceFrom(b, p, k) == 0 <==> forall d :: k <= d < DIM ==> b.lo[d] <= p[d] <= b.hi[d]
    decreases DIM - k
  {
    if k < DIM {
      SqDistanceFromZero(b, p, k + 1);
      var lo, x, hi := b.lo[k], p[k], b.hi[k];
      if x < lo {
        assert Square(lo - x) > 0 by { PositiveSquare(lo - x); }
      }
      if x > hi {
        assert Square(x - hi) > 0 by { PositiveSquare(x - hi); }
      }
    }
  }

  lemma PositiveSquare(x: int)
    requires x > 0
    ensures Square(x) > 0
  {
  }

  /**
   * The squared distance from `p` to the nearest point of `b`. The source
   * returns its square root, which is zero exactly when this is zero.
   */
  function SqDistance(b: Box, p: Point): (r: int)
    ensures r >= 0
    ensures r == 0 <==> InBox(b, p)
  {
    SqDistanceFromZero(b, p, 0);
    SqDistanceFrom(b, p, 0)
  }

  /** The left child's box: the parent's, with `hi[d]` lowered to the split value. */
  function LeftBox(b: Box, d: Dim, v: int): Box
  {
    Box(b.lo, b.hi[d := v])
  }

  /** The right child's box: the parent's, with `lo[d]` raised to the split value. */
  function RightBox(b: Box, d: Dim, v: int): Box
  {
    Box(b.lo[d := v], b.hi)
  }

  /**
   * Splitting a box at a value inside its extent on dimension `d` yields two
   * well-formed boxes inside it whose union is the box, meeting on `p[d] == v`.
   */
  lemma SplitBox(b: Box, d: Dim, v: int, p: Point)
    requires WellFormed(b) && b.lo[d] <= v <= b.hi[d]
    ensures WellFormed(LeftBox(b, d, v)) && WellFormed(RightBox(b, d, v))
    ensures BoxWithin(LeftBox(b, d, v), b) && BoxWithin(RightBox(b, d, v), b)
    ensures InBox(b, p) <==> InBox(LeftBox(b, d, v), p) || InBox(RightBox(b, d, v), p)
    ensures InBox(LeftBox(b, d, v), p) <==> InBox(b, p) && p[d] <= v
    ensures InBox(RightBox(b, d, v), p) <==> InBox(b, p) && p[d] >= v
  {
  }
}
