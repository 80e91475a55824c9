/** Python's `sorted` on a list of `str`, modelled as an insertion sort under
    the code-point lexicographic order. Because that order is total and
    antisymmetric, the sorted result is fully determined by the multiset of
    inputs, so stability never shows. */
module Sorting {
  import opened Strings

  /** Every earlier element is `LessEq` every later one. */
  predicate Sorted(s: seq<string>)
  {
    forall i, j :: 0 <= i < j < |s| ==> LessEq(s[i], s[j])
  }

  /** `x` is `LessEq` every element of `s`. */
  predicate IsLowerBound(x: string, s: seq<string>)
  {
    forall k :: 0 <= k < |s| ==> LessEq(x, s[k])
  }

  /** Insert `x` into the sorted sequence `s` in front of the first element it
      is `LessEq`. */
  function Insert(x: string, s: seq<string>): (r: seq<string>)
    requires Sorted(s)
    ensures Sorted(r)
    ensures multiset(r) == multiset(s) + multiset{x}
    ensures |r| == |s| + 1
  {
    if |s| == 0 then
      [x]
    else if LessEq(x, s[0]) then
      HeadIsLowerBound(x, s);
      SortedCons(x, s);
      [x] + s
    else
      var tail := Insert(x, s[1..]);
      LessEqTotal(x, s[0]);
      assert IsLowerBound(s[0], s[1..]);
      LowerBoundOfSameElements(s[0], tail, s[1..] + [x]);
      SortedCons(s[0], tail);
      assert s == [s[0]] + s[1..];
      [s[0]] + tail
  }

  /** Something `LessEq` the head of a sorted sequence is `LessEq` all of it. */
  lemma HeadIsLowerBound(x: string, s: seq<string>)
    requires Sorted(s) && |s| > 0 && LessEq(x, s[0])
    ensures IsLowerBound(x, s)
  {
    forall k | 0 <= k < |s| ensures LessEq(x, s[k]) {
      if k > 0 {
        LessEqTransitive(x, s[0], s[k]);
      }
    }
  }

  /** A lower bound depends only on the elements, not on their order. */
  lemma LowerBoundOfSameElements(y: string, t: seq<string>, u: seq<string>)
    requires IsLowerBound(y, u) && multiset(t) == multiset(u)
    ensures IsLowerBound(y, t)
  {
    forall k | 0 <= k < |t| ensures LessEq(y, t[k]) {
      assert t[k] in multiset(u);
    }
  }

  lemma SortedCons(h: string, t: seq<string>)
    requires IsLowerBound(h, t) && Sorted(t)
    ensures Sorted([h] + t)
  {
  }

  /** Python's `sorted(xs)` for `str` elements. */
  function Sort(xs: seq<string>): (r: seq<string>)
    ensures Sorted(r)
    ensures multiset(r) == multiset(xs)
    ensures |r| == |xs|
  {
    if |xs| == 0 then
      []
    else
      assert xs == [xs[0]] + xs[1..];
      Insert(xs[0], Sort(xs[1..]))
  }

  /** The first element of a sorted sequence is `LessEq` any element of the
      same multiset. */
  lemma SortedHeadIsLeast(s: seq<string>, y: string)
    requires Sorted(s) && |s| > 0
    requires y in multiset(s)
    ensures LessEq(s[0], y)
  {
    var k :| 0 <= k < |s| && s[k] == y;
    if k == 0 {
      LessEqReflexive(y);
    }
  }

  /** Two sorted sequences with the same elements are equal: the order leaves
      no choice. */
  lemma {:induction false} SortedUnique(a: seq<string>, b: seq<string>)
    requires Sorted(a) && Sorted(b)
    requires multiset(a) == multiset(b)
    ensures a == b
  {
    if |a| == 0 {
      assert |b| == |multiset(b)| == 0;
    } else {
      assert a[0] in multiset(a);
      assert |b| > 0 by { assert |b| == |multiset(b)|; }
      assert b[0] in multiset(b);
      SortedHeadIsLeast(a, b[0]);
      SortedHeadIsLeast(b, a[0]);
      LessEqAntisymmetric(a[0], b[0]);
      assert a == [a[0]] + a[1..];
      assert b == [b[0]] + b[1..];
      assert multiset(a[1..]) == multiset(a) - multiset{a[0]};
      assert multiset(b[1..]) == multiset(b) - multiset{b[0]};
      SortedUnique(a[1..], b[1..]);
    }
  }

  /** Sorting agrees with every sorted permutation of its input. */
  lemma SortIsTheSortedPermutation(xs: seq<string>, ys: seq<string>)
    requires Sorted(ys) && multiset(ys) == multiset(xs)
    ensures Sort(xs) == ys
  {
    SortedUnique(Sort(xs), ys);
  }

  /** Sorting an already sorted sequence changes nothing. */
  lemma SortOfSorted(s: seq<string>)
    requires Sorted(s)
    ensures Sort(s) == s
  {
    SortIsTheSortedPermutation(s, s);
  }

  /** Sorting is idempotent. */
  lemma SortIdempotent(xs: seq<string>)
    ensures Sort(Sort(xs)) == Sort(xs)
  {
    SortOfSorted(Sort(xs));
  }

  /** Sorting depends only on the multiset of its input, not on the order in
      which the names were listed. */
  lemma SortIgnoresListingOrder(xs: seq<string>, ys: seq<string>)
    requires multiset(xs) == multiset(ys)
    ensures Sort(xs) == Sort(ys)
  {
    SortIsTheSortedPermutation(xs, Sort(ys));
  }
}
