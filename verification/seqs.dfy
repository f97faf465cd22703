/** Sequence helpers shared by the selection step, the tree builder and the query. */
module Seqs {

  /** The elements of `s` that satisfy `f`, in their original order. */
  function Filter<T>(s: seq<T>, f: T -> bool): (r: seq<T>)
    ensures |r| <= |s|
    ensures forall i :: 0 <= i < |r| ==> f(r[i])
  {
    if s == [] then [] else (if f(s[0]) then [s[0]] else []) + Filter(s[1..], f)
  }

  /** Filtering keeps every occurrence of a selected value and none of the others. */
  lemma {:induction false} FilterCounts<T(!new)>(s: seq<T>, f: T -> bool)
    ensures forall x :: multiset(Filter(s, f))[x] == if f(x) then multiset(s)[x] else 0
  {
    if s != [] {
      FilterCounts(s[1..], f);
      assert s == [s[0]] + s[1..];
    }
  }

  lemma {:induction false} FilterConcat<T>(a: seq<T>, b: seq<T>, f: T -> bool)
    ensures Filter(a + b, f) == Filter(a, f) + Filter(b, f)
  {
    if a == [] {
      assert a + b == b;
    } else {
      var c := a + b;
      assert c[0] == a[0];
      assert c[1..] == a[1..] + b;
      FilterConcat(a[1..], b, f);
      assert Filter(c, f) == (if f(a[0]) then [a[0]] else []) + Filter(a[1..] + b, f);
      assert Filter(a, f) == (if f(a[0]) then [a[0]] else []) + Filter(a[1..], f);
    }
  }

  lemma {:induction false} FilterNone<T>(s: seq<T>, f: T -> bool)
    requires forall i :: 0 <= i < |s| ==> !f(s[i])
    ensures Filter(s, f) == []
  {
    if s != [] {
      FilterNone(s[1..], f);
    }
  }

  lemma {:induction false} FilterAll<T>(s: seq<T>, f: T -> bool)
    requires forall i :: 0 <= i < |s| ==> f(s[i])
    ensures Filter(s, f) == s
  {
    if s != [] {
      FilterAll(s[1..], f);
      assert s == [s[0]] + s[1..];
    }
  }

  /** Filters that agree on every element of `s` select the same subsequence. */
  lemma {:induction false} FilterSameOn<T>(s: seq<T>, f: T -> bool, g: T -> bool)
    requires forall i :: 0 <= i < |s| ==> f(s[i]) == g(s[i])
    ensures Filter(s, f) == Filter(s, g)
  {
    if s != [] {
      FilterSameOn(s[1..], f, g);
    }
  }

  /** A value at two positions occurs at least twice. */
  lemma TwoOccurrences<T>(s: seq<T>, i: nat, j: nat)
    requires i < j < |s| && s[i] == s[j]
    ensures multiset(s)[s[i]] >= 2
  {
    assert s == s[..j] + s[j..];
    assert s[i] in s[..j];
    assert s[j] in s[j..];
  }

  /** Filtering only depends on the multiset of the input. */
  lemma FilterPermutation<T(!new)>(a: seq<T>, b: seq<T>, f: T -> bool)
    requires multiset(a) == multiset(b)
    ensures multiset(Filter(a, f)) == multiset(Filter(b, f))
    ensures |Filter(a, f)| == |Filter(b, f)|
  {
    FilterCounts(a, f);
    FilterCounts(b, f);
    assert multiset(Filter(a, f)) == multiset(Filter(b, f));
    assert |multiset(Filter(a, f))| == |multiset(Filter(b, f))|;
  }

  /** `0, 1, ..., n-1`. */
  function Iota(n: nat): (r: seq<nat>)
    ensures |r| == n && forall i :: 0 <= i < n ==> r[i] == i
  {
    seq(n, i => i)
  }

  predicate IndexesBelow(idx: seq<nat>, n: nat)
  {
    forall i :: 0 <= i < |idx| ==> idx[i] < n
  }

  /** The elements of `xs` at positions `idx`, in that order. */
  function Gather<T>(xs: seq<T>, idx: seq<nat>): (r: seq<T>)
    requires IndexesBelow(idx, |xs|)
    ensures |r| == |idx| && forall i :: 0 <= i < |idx| ==> r[i] == xs[idx[i]]
  {
    seq(|idx|, i requires 0 <= i < |idx| => xs[idx[i]])
  }

  lemma GatherIota<T>(xs: seq<T>)
    ensures Gather(xs, Iota(|xs|)) == xs
  {
  }

  /** A permutation of indexes below `n` holds only indexes below `n`. */
  lemma PermutationBelow(a: seq<nat>, b: seq<nat>, n: nat)
    requires multiset(a) == multiset(b) && IndexesBelow(a, n)
    ensures IndexesBelow(b, n)
  {
    forall i | 0 <= i < |b|
      ensures b[i] < n
    {
      assert b[i] in multiset(b);
      assert b[i] in a;
    }
  }

  function IsIndexOf<T(==)>(xs: seq<T>, x: T): nat -> bool
  {
    (i: nat) => i < |xs| && xs[i] == x
  }

  lemma {:induction false} GatherCount<T(!new)>(xs: seq<T>, idx: seq<nat>, x: T)
    requires IndexesBelow(idx, |xs|)
    ensures multiset(Gather(xs, idx))[x] == |Filter(idx, IsIndexOf(xs, x))|
  {
    if idx != [] {
      GatherCount(xs, idx[1..], x);
      assert Gather(xs, idx) == [xs[idx[0]]] + Gather(xs, idx[1..]);
    }
  }

  /** Gathering through a permutation of the same indexes yields the same multiset. */
  lemma GatherPermutation<T(!new)>(xs: seq<T>, a: seq<nat>, b: seq<nat>)
    requires IndexesBelow(a, |xs|) && multiset(a) == multiset(b)
    ensures IndexesBelow(b, |xs|)
    ensures multiset(Gather(xs, a)) == multiset(Gather(xs, b))
  {
    PermutationBelow(a, b, |xs|);
    forall x
      ensures multiset(Gather(xs, a))[x] == multiset(Gather(xs, b))[x]
    {
      GatherCount(xs, a, x);
      GatherCount(xs, b, x);
      FilterPermutation(a, b, IsIndexOf(xs, x));
    }
  }

  /** No value occurs twice. */
  predicate NoDuplicates<T(==)>(s: seq<T>)
  {
    forall i, j :: 0 <= i < j < |s| ==> s[i] != s[j]
  }

  lemma {:induction false} NoDuplicatesOccurOnce<T>(s: seq<T>)
    requires NoDuplicates(s)
    ensures forall x :: multiset(s)[x] <= 1
  {
    if s != [] {
      NoDuplicatesOccurOnce(s[1..]);
      assert s == [s[0]] + s[1..];
      assert s[0] !in s[1..];
    }
  }

  /** Sub-multisets add up to a sub-multiset of the sum. */
  lemma SubMultisetSum<T>(a: multiset<T>, b: multiset<T>, c: multiset<T>, x: multiset<T>, y: multiset<T>, z: multiset<T>)
    requires a <= x && b <= y && c <= z
    ensures a + b + c <= x + y + z
  {
  }

  /** `x` alone if it satisfies `f`, else nothing. */
  function FilterOne<T>(x: T, f: T -> bool): (r: seq<T>)
  {
    if f(x) then [x] else []
  }

  lemma FilterSingleton<T>(x: T, f: T -> bool)
    ensures Filter([x], f) == FilterOne(x, f)
  {
    assert [x][1..] == [];
  }
}
