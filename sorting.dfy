/** Definitions shared by the pH and TDS filters: ascending order, a
    functional sort that the in-place sorts are proved against, the swap
    both in-place sorts are built from, and the minimum, maximum and sum of a
    run of samples. */
module Sorting {

  /** `unsigned long` is 32 bits wide on the ESP32: arithmetic on it is
      modulo this value. */
  const ULONG_MOD := 0x1_0000_0000

  /** `s` is in ascending (non-decreasing) order. */
  predicate Sorted(s: seq<int>) {
    forall i, j :: 0 <= i < j < |s| ==> s[i] <= s[j]
  }

  /** Every element before index `k` is at most every element from `k` on:
      the prefix holds the smallest values and the suffix the largest. */
  predicate Partitioned(s: seq<int>, k: int) {
    forall i, j :: 0 <= i < k <= j < |s| ==> s[i] <= s[j]
  }

  /** Inserts `x` into the sorted sequence `s`; the result starts with the
      smaller of `x` and the old head. */
  function Insert(x: int, s: seq<int>): (r: seq<int>)
    requires Sorted(s)
    ensures |r| == |s| + 1
    ensures r[0] == if s == [] || x <= s[0] then x else s[0]
    ensures Sorted(r)
    ensures multiset(r) == multiset(s) + multiset{x}
  {
    if s == [] then [x]
    else if x <= s[0] then [x] + s
    else
      assert s == [s[0]] + s[1..];
      [s[0]] + Insert(x, s[1..])
  }

  /** The reference sort: the ascending permutation of `s`. */
  function SortSeq(s: seq<int>): (r: seq<int>)
    ensures Sorted(r)
    ensures multiset(r) == multiset(s)
    ensures |r| == |s|
  {
    if s == [] then []
    else
      assert s == [s[0]] + s[1..];
      Insert(s[0], SortSeq(s[1..]))
  }

  /** The first element of a sorted sequence is at most anything in it. */
  lemma {:induction false} SortedHeadIsLeast(s: seq<int>, x: int)
    requires Sorted(s) && x in multiset(s)
    ensures s[0] <= x
  {
    assert x in s;
  }

  /** There is only one ascending arrangement of a multiset of values: two
      sorted sequences with the same elements are equal. */
  lemma {:induction false} SortedUnique(a: seq<int>, b: seq<int>)
    requires Sorted(a) && Sorted(b)
    requires multiset(a) == multiset(b)
    ensures a == b
  {
    if a != [] {
      assert |multiset(a)| == |a| && |multiset(b)| == |b|;
      assert a[0] in multiset(b);
      assert b[0] in multiset(a);
      SortedHeadIsLeast(b, a[0]);
      SortedHeadIsLeast(a, b[0]);
      assert a == [a[0]] + a[1..];
      assert b == [b[0]] + b[1..];
      assert multiset(a) == multiset{a[0]} + multiset(a[1..]);
      assert multiset(b) == multiset{b[0]} + multiset(b[1..]);
      assert a[0] == b[0];
      assert multiset(a[1..]) == multiset(a) - multiset{a[0]};
      assert multiset(b[1..]) == multiset(b) - multiset{b[0]};
      SortedUnique(a[1..], b[1..]);
    }
  }

  /** A sorted permutation of `s` is the reference sort of `s`. */
  lemma SortedPermutationIsSortSeq(s: seq<int>, t: seq<int>)
    requires Sorted(t) && multiset(t) == multiset(s)
    ensures t == SortSeq(s)
  {
    SortedUnique(t, SortSeq(s));
  }

  /** A sorted prefix of the smallest values grows by one when the next
      element is at most everything after it. */
  lemma GrowSortedPrefix(s: seq<int>, i: int)
    requires 0 <= i < |s|
    requires Sorted(s[..i]) && Partitioned(s, i)
    requires forall k :: i < k < |s| ==> s[i] <= s[k]
    ensures Sorted(s[..i + 1]) && Partitioned(s, i + 1)
  {
  }

  /** A sequence whose prefix without the last element is sorted, and at
      most that last element, is sorted. */
  lemma SortedFromPrefix(s: seq<int>)
    requires |s| >= 1
    requires Sorted(s[..|s| - 1]) && Partitioned(s, |s| - 1)
    ensures Sorted(s)
  {
    forall i, j | 0 <= i < j < |s|
      ensures s[i] <= s[j]
    {
      if j < |s| - 1 {
        assert s[..|s| - 1][i] <= s[..|s| - 1][j];
      }
    }
  }

  /** Two permutations of each other that agree before index `k` are
      permutations of each other from `k` on. */
  lemma SuffixPermutation(cur: seq<int>, orig: seq<int>, k: int)
    requires 0 <= k <= |cur| == |orig|
    requires cur[..k] == orig[..k] && multiset(cur) == multiset(orig)
    ensures multiset(cur[k..]) == multiset(orig[k..])
  {
    assert cur == cur[..k] + cur[k..];
    assert orig == orig[..k] + orig[k..];
    assert multiset(cur[k..]) == multiset(cur) - multiset(cur[..k]);
    assert multiset(orig[k..]) == multiset(orig) - multiset(orig[..k]);
  }

  /** Smallest element of a non-empty sequence. */
  function Minimum(s: seq<int>): (m: int)
    requires |s| > 0
    ensures m in s
    ensures forall k :: 0 <= k < |s| ==> m <= s[k]
  {
    if |s| == 1 then s[0]
    else
      var rest := Minimum(s[1..]);
      if s[0] <= rest then s[0] else rest
  }

  /** Largest element of a non-empty sequence. */
  function Maximum(s: seq<int>): (m: int)
    requires |s| > 0
    ensures m in s
    ensures forall k :: 0 <= k < |s| ==> s[k] <= m
  {
    if |s| == 1 then s[0]
    else
      var rest := Maximum(s[1..]);
      if s[0] >= rest then s[0] else rest
  }

  /** Sum of a sequence, accumulated from the front as the source's loops do. */
  function Sum(s: seq<int>): int {
    if s == [] then 0 else Sum(s[..|s| - 1]) + s[|s| - 1]
  }

  /** A sum of `|s|` terms, each within `[lo, hi]`, lies within
      `[|s| * lo, |s| * hi]`. */
  lemma {:induction false} SumBounds(s: seq<int>, lo: int, hi: int)
    requires forall k :: 0 <= k < |s| ==> lo <= s[k] <= hi
    ensures |s| * lo <= Sum(s) <= |s| * hi
  {
    if s != [] {
      SumBounds(s[..|s| - 1], lo, hi);
    }
  }

  /** The sum of `|s|` copies of `v` is `|s| * v`. */
  lemma {:induction false} SumConstant(s: seq<int>, v: int)
    requires forall k :: 0 <= k < |s| ==> s[k] == v
    ensures Sum(s) == |s| * v
  {
    if s != [] {
      SumConstant(s[..|s| - 1], v);
    }
  }

  /** Every element of the reference sort of `s` lies within `s`'s range. */
  lemma SortSeqWithinRange(s: seq<int>, k: int)
    requires 0 <= k < |s|
    ensures Minimum(s) <= SortSeq(s)[k] <= Maximum(s)
  {
    var t := SortSeq(s);
    assert t[k] in multiset(t);
    assert t[k] in s;
  }

  /** Exchanges `a[i]` and `a[j]`, through a temporary as the source does. */
  method Swap(a: array<int>, i: int, j: int)
    requires 0 <= i < a.Length && 0 <= j < a.Length
    modifies a
    ensures a[i] == old(a[j]) && a[j] == old(a[i])
    ensures forall k :: 0 <= k < a.Length && k != i && k != j ==> a[k] == old(a[k])
    ensures multiset(a[..]) == multiset(old(a[..]))
  {
    var t := a[i];
    a[i] := a[j];
    a[j] := t;
  }
}
