/**
 * The coordinate table, the per-dimension comparator and the selection step
 * (`std::nth_element` over a slice of the point-index array).
 */
module Selection {
  import opened Geometry
  import opened Seqs

  /** Coordinate `d` of every point, in point order: one block of the table. */
  function Column(points: seq<Point>, d: Dim): (c: seq<int>)
    ensures |c| == |points|
    ensures forall j :: 0 <= j < |points| ==> c[j] == points[j][d]
  {
    seq(|points|, j requires 0 <= j < |points| => points[j][d])
  }

  /**
   * Where block `d` of a table of `n`-value blocks starts: `d * n`, written
   * out for the two dimensions so that the offset stays linear in `n`.
   */
  function BlockStart(d: Dim, n: nat): (s: nat)
  {
    if d == 0 then 0 else n
  }

  lemma BlockStartIsProduct(d: Dim, n: nat)
    ensures BlockStart(d, n) == d * n
  {
  }

  /**
   * The coordinate table: `DIM` blocks of `|points|` values, block `d`
   * holding coordinate `d` of every point in the original point order.
   */
  function CoordTable(points: seq<Point>): (t: seq<int>)
    ensures |t| == DIM * |points|
    ensures forall d: Dim, j :: 0 <= j < |points| ==> t[BlockStart(d, |points|) + j] == points[j][d]
  {
    Column(points, 0) + Column(points, 1)
  }

  /**
   * The comparator handed to the selection step: orders point indexes by
   * their coordinate on `currDim`, read from the coordinate table.
   */
  datatype CoordComp = CoordComp(pointsCount: nat, coords: seq<int>, currDim: Dim) {

    /** Coordinate `currDim` of point `a`; indexes beyond the table read as 0 (no caller passes one). */
    function Key(a: nat): int
    {
      var k := BlockStart(currDim, pointsCount) + a;
      if k < |coords| then coords[k] else 0
    }

    predicate Less(a: nat, b: nat)
    {
      Key(a) < Key(b)
    }
  }

  lemma TableIndexInRange(coords: seq<int>, n: nat, d: Dim, j: nat)
    requires |coords| == DIM * n && j < n
    ensures BlockStart(d, n) + j < |coords|
    ensures CoordComp(n, coords, d).Key(j) == coords[BlockStart(d, n) + j]
  {
  }

  /** Comparing through the table is comparing the points' coordinates on that dimension. */
  lemma KeyIsCoordinate(points: seq<Point>, d: Dim, a: nat)
    requires a < |points|
    ensures CoordComp(|points|, CoordTable(points), d).Key(a) == points[a][d]
  {
    assert CoordTable(points)[BlockStart(d, |points|) + a] == points[a][d];
  }

  lemma KeysAreCoordinates(points: seq<Point>, d: Dim)
    ensures forall a: nat :: a < |points| ==> CoordComp(|points|, CoordTable(points), d).Key(a) == points[a][d]
  {
    forall a: nat | a < |points|
      ensures CoordComp(|points|, CoordTable(points), d).Key(a) == points[a][d]
    {
      KeyIsCoordinate(points, d, a);
    }
  }

  predicate SortedBy(s: seq<nat>, cmp: CoordComp)
  {
    forall i, j :: 0 <= i < j < |s| ==> !cmp.Less(s[j], s[i])
  }

  function Insert(x: nat, s: seq<nat>, cmp: CoordComp): (r: seq<nat>)
    ensures |r| == |s| + 1
  {
    if s == [] || !cmp.Less(s[0], x) then [x] + s
    else [s[0]] + Insert(x, s[1..], cmp)
  }

  /** Inserting adds `x` to the elements and nothing else. */
  lemma {:induction false} InsertPermutes(x: nat, s: seq<nat>, cmp: CoordComp)
    ensures multiset(Insert(x, s, cmp)) == multiset(s) + multiset{x}
  {
    if s != [] && cmp.Less(s[0], x) {
      InsertPermutes(x, s[1..], cmp);
      assert s == [s[0]] + s[1..];
    }
  }

  /** Inserting into a sorted sequence keeps it sorted. */
  lemma {:induction false} InsertSorted(x: nat, s: seq<nat>, cmp: CoordComp)
    requires SortedBy(s, cmp)
    ensures SortedBy(Insert(x, s, cmp), cmp)
  {
    if s != [] && cmp.Less(s[0], x) {
      InsertSorted(x, s[1..], cmp);
      InsertPermutes(x, s[1..], cmp);
      forall j | 0 <= j < |s|
        ensures !cmp.Less(Insert(x, s[1..], cmp)[j], s[0])
      {
        assert Insert(x, s[1..], cmp)[j] in multiset(s[1..]) + multiset{x};
      }
    }
  }

  /** A stable insertion sort of the slice: one selection that meets the contract below. */
  function Sort(s: seq<nat>, cmp: CoordComp): (r: seq<nat>)
    ensures |r| == |s|
  {
    if s == [] then [] else Insert(s[0], Sort(s[1..], cmp), cmp)
  }

  lemma {:induction false} SortSpec(s: seq<nat>, cmp: CoordComp)
    ensures multiset(Sort(s, cmp)) == multiset(s)
    ensures SortedBy(Sort(s, cmp), cmp)
  {
    if s != [] {
      SortSpec(s[1..], cmp);
      InsertPermutes(s[0], Sort(s[1..], cmp), cmp);
      InsertSorted(s[0], Sort(s[1..], cmp), cmp);
      assert s == [s[0]] + s[1..];
    }
  }

  /**
   * `std::nth_element(first, nth, last, comp)` on the slice `s` with `nth`
   * at offset `k`; its contract is `NthElementContract`.
   */
  function NthElement(s: seq<nat>, k: nat, cmp: CoordComp): (r: seq<nat>)
    requires k < |s|
    ensures |r| == |s|
  {
    Sort(s, cmp)
  }

  /**
   * The selection rearranges the slice so that nothing after position `k`
   * compares less than anything before it, nor less than the element at `k`.
   */
  lemma NthElementContract(s: seq<nat>, k: nat, cmp: CoordComp)
    requires k < |s|
    ensures multiset(NthElement(s, k, cmp)) == multiset(s)
    ensures forall i, j :: 0 <= i < k <= j < |s| ==> !cmp.Less(NthElement(s, k, cmp)[j], NthElement(s, k, cmp)[i])
    ensures forall j :: k < j < |s| ==> !cmp.Less(NthElement(s, k, cmp)[j], NthElement(s, k, cmp)[k])
  {
    SortSpec(s, cmp);
  }

  function KeyBelow(cmp: CoordComp, v: int): nat -> bool
  {
    (a: nat) => cmp.Key(a) < v
  }

  function KeyAtMost(cmp: CoordComp, v: int): nat -> bool
  {
    (a: nat) => cmp.Key(a) <= v
  }

  /**
   * Any arrangement meeting the `nth_element` contract holds at position `k`
   * the order statistic of rank `k` of the original slice: at most `k` keys
   * of `s` are smaller than its key, and more than `k` are no larger.
   */
  lemma NthElementIsOrderStatistic(s: seq<nat>, r: seq<nat>, k: nat, cmp: CoordComp)
    requires k < |r| && multiset(r) == multiset(s)
    requires forall i :: 0 <= i < k ==> !cmp.Less(r[k], r[i])
    requires forall j :: k < j < |r| ==> !cmp.Less(r[j], r[k])
    ensures |Filter(s, KeyBelow(cmp, cmp.Key(r[k])))| <= k
    ensures |Filter(s, KeyAtMost(cmp, cmp.Key(r[k])))| >= k + 1
  {
    var v := cmp.Key(r[k]);
    var below, atMost := KeyBelow(cmp, v), KeyAtMost(cmp, v);
    assert |Filter(r, below)| <= k by {
      var left, rest := r[..k], r[k..];
      assert r == left + rest;
      FilterConcat(left, rest, below);
      forall i | 0 <= i < |rest|
        ensures !below(rest[i])
      {
        assert rest[i] == r[k + i];
      }
      FilterNone(rest, below);
    }
    assert |Filter(r, atMost)| >= k + 1 by {
      var upTo, right := r[..k + 1], r[k + 1..];
      assert r == upTo + right;
      FilterConcat(upTo, right, atMost);
      forall i | 0 <= i < |upTo|
        ensures atMost(upTo[i])
      {
        assert upTo[i] == r[i];
      }
      FilterAll(upTo, atMost);
    }
    FilterPermutation(r, s, below);
    FilterPermutation(r, s, atMost);
  }

  /**
   * `partition_point_indexes`: runs the selection in place on the inclusive
   * slice `[start, end]` of the index array with `nth` at `partition`,
   * leaving the rest of the array alone.
   */
  method PartitionPointIndexes(pointIndexes: seq<nat>, coords: seq<int>, start: int, partition: int,
                               end: int, pointsCount: nat, currDim: Dim) returns (r: seq<nat>)
    requires 0 <= start <= partition <= end < |pointIndexes|
    ensures |r| == |pointIndexes|
    ensures forall i :: 0 <= i < |r| && (i < start || end < i) ==> r[i] == pointIndexes[i]
    ensures r[start..end + 1]
         == NthElement(pointIndexes[start..end + 1], partition - start, CoordComp(pointsCount, coords, currDim))
    ensures multiset(r[start..end + 1]) == multiset(pointIndexes[start..end + 1])
    ensures multiset(r) == multiset(pointIndexes)
    ensures forall i, j :: start <= i < partition <= j <= end ==>
              !CoordComp(pointsCount, coords, currDim).Less(r[j], r[i])
    ensures forall j :: partition < j <= end ==>
              !CoordComp(pointsCount, coords, currDim).Less(r[j], r[partition])
  {
    var before, slice, after := pointIndexes[..start], pointIndexes[start..end + 1], pointIndexes[end + 1..];
    assert pointIndexes == before + slice + after;
    var sel := NthElement(slice, partition - start, CoordComp(pointsCount, coords, currDim));
    NthElementContract(slice, partition - start, CoordComp(pointsCount, coords, currDim));
    r := before + sel + after;
    assert r[start..end + 1] == sel;
  }
}
