/** The median filter `getMedianNum` (src/main.cpp, copied into
    backup/tds.cpp and backup/tds2.cpp): copy the first `iFilterLen` values
    into a local table, bubble-sort the table in place, and take the middle
    element, or the truncated average of the two middle elements when the
    length is even. */
module MedianFilter {
  import opened Sorting

  /** C++ `int` division by 2: the quotient is truncated toward zero, so
      the remainder has the sign of `x`. */
  function HalfTowardZero(x: int): (r: int)
    ensures x >= 0 ==> 0 <= x - 2 * r <= 1
    ensures x < 0 ==> 0 <= 2 * r - x <= 1
  {
    if x >= 0 then x / 2 else -((-x) / 2)
  }

  /** The truncated average of two values lies between them. */
  lemma HalfOfSumBetween(lo: int, hi: int)
    requires lo <= hi
    ensures lo <= HalfTowardZero(lo + hi) <= hi
  {
  }

  /** The median of an already sorted, non-empty table, as `getMedianNum`
      picks it: the middle element for an odd length, otherwise the
      truncated average of the two middle elements. */
  function MedianOfSorted(t: seq<int>): int
    requires |t| >= 1
  {
    if |t| % 2 == 1 then t[(|t| - 1) / 2]
    else HalfTowardZero(t[|t| / 2] + t[|t| / 2 - 1])
  }

  /** The median of a non-empty run of samples: that of its ascending
      permutation. */
  function Median(s: seq<int>): int
    requires |s| >= 1
  {
    MedianOfSorted(SortSeq(s))
  }

  /** The median of a sorted table whose values all lie within `[lo, hi]`
      lies within `[lo, hi]` too. */
  lemma MedianOfSortedBetween(t: seq<int>, lo: int, hi: int)
    requires |t| >= 1 && Sorted(t)
    requires forall k :: 0 <= k < |t| ==> lo <= t[k] <= hi
    ensures lo <= MedianOfSorted(t) <= hi
  {
    var n := |t|;
    if n % 2 == 0 {
      HalfOfSumBetween(t[n / 2 - 1], t[n / 2]);
    }
  }

  /** The filter never leaves the range of its input: the median lies
      between the smallest and the largest sample. */
  lemma MedianWithinRange(s: seq<int>)
    requires |s| >= 1
    ensures Minimum(s) <= Median(s) <= Maximum(s)
  {
    var t := SortSeq(s);
    forall k | 0 <= k < |t|
      ensures Minimum(s) <= t[k] <= Maximum(s)
    {
      SortSeqWithinRange(s, k);
    }
    MedianOfSortedBetween(t, Minimum(s), Maximum(s));
  }

  /** The median depends only on the values, not on the order in which
      they were sampled. */
  lemma MedianPermutationInvariant(s: seq<int>, u: seq<int>)
    requires |s| >= 1
    requires multiset(s) == multiset(u)
    ensures |u| == |s| && Median(s) == Median(u)
  {
    assert |multiset(s)| == |s| && |multiset(u)| == |u|;
    SortedUnique(SortSeq(s), SortSeq(u));
  }

  /** On input that is already ascending, the median is read off directly
      at the middle index (or the two middle indices). */
  lemma MedianOfSortedInput(s: seq<int>)
    requires |s| >= 1 && Sorted(s)
    ensures |s| % 2 == 1 ==> Median(s) == s[(|s| - 1) / 2]
    ensures |s| % 2 == 0 ==> Median(s) == HalfTowardZero(s[|s| / 2] + s[|s| / 2 - 1])
  {
    SortedPermutationIsSortSeq(s, s);
  }

  /** The even-length case on the ascending buffer 1, 2, ..., 30: the
      elements at indices 14 and 15 are 15 and 16, and their truncated
      average is 15. */
  lemma MedianOfOneToThirty()
    ensures Median(seq(30, k => k + 1)) == 15
  {
    var s := seq(30, k => k + 1);
    MedianOfSortedInput(s);
  }

  /** The median of a sorted permutation of `s` is the median of `s`, and
      so lies within `s`'s range. */
  lemma MedianOfSortedPermutation(s: seq<int>, t: seq<int>)
    requires |s| >= 1 && Sorted(t) && multiset(t) == multiset(s)
    ensures |t| == |s|
    ensures MedianOfSorted(t) == Median(s)
    ensures Minimum(s) <= MedianOfSorted(t) <= Maximum(s)
  {
    SortedPermutationIsSortSeq(s, t);
    MedianWithinRange(s);
  }

  /** One pass of the bubble sort over `a[..m]`: neighbours that are out
      of order are swapped, which carries the largest value of the prefix
      to index `m - 1`. The part from `m` on is not touched, so a prefix
      whose values are at most those after it keeps that property. */
  method BubblePass(a: array<int>, m: int)
    requires 1 <= m <= a.Length
    requires Partitioned(a[..], m)
    modifies a
    ensures forall k :: 0 <= k < m ==> a[k] <= a[m - 1]
    ensures a[m..] == old(a[m..])
    ensures Partitioned(a[..], m)
    ensures multiset(a[..]) == multiset(old(a[..]))
  {
    var i := 0;
    while i < m - 1
      invariant 0 <= i <= m - 1
      invariant forall k :: 0 <= k < i ==> a[k] <= a[i]
      invariant a[m..] == old(a[m..])
      invariant Partitioned(a[..], m)
      invariant multiset(a[..]) == multiset(old(a[..]))
    {
      if a[i] > a[i + 1] {
        Swap(a, i, i + 1);
      }
      i := i + 1;
    }
  }

  /** Sorts `a` in place with the nested loops of `getMedianNum`: pass `j`
      bubbles the largest value of `a[..n - j]` up to index `n - j - 1`, so
      after it the last `j + 1` slots hold the largest values in order. */
  method BubbleSort(a: array<int>)
    modifies a
    ensures Sorted(a[..])
    ensures multiset(a[..]) == multiset(old(a[..]))
  {
    var n := a.Length;
    var j := 0;
    while j < n - 1
      invariant 0 <= j && (n >= 1 ==> j <= n - 1) && (n == 0 ==> j == 0)
      invariant Sorted(a[n - j..])
      invariant Partitioned(a[..], n - j)
      invariant multiset(a[..]) == multiset(old(a[..]))
    {
      BubblePass(a, n - j);
      assert a[n - j - 1..] == [a[n - j - 1]] + a[n - j..];
      j := j + 1;
    }
    assert n >= 1 ==> a[..] == [a[0]] + a[1..];
  }

  /** `getMedianNum(bArray, iFilterLen)`: the median of the first
      `iFilterLen` values of `bArray`, computed on a sorted local copy so
      that `bArray` itself is left as it was. The source counts the copy
      loop with a `byte`, so lengths above 255 are outside its domain; a
      length of 0 would read outside the table. */
  method GetMedianNum(bArray: array<int>, iFilterLen: int) returns (r: int)
    requires 1 <= iFilterLen <= 255 && iFilterLen <= bArray.Length
    ensures r == Median(bArray[..iFilterLen])
  {
    var bTab := new int[iFilterLen];
    var i := 0;
    while i < iFilterLen
      invariant 0 <= i <= iFilterLen
      invariant bTab[..i] == bArray[..i]
    {
      bTab[i] := bArray[i];
      i := i + 1;
    }
    assert bTab[..] == bArray[..iFilterLen];
    BubbleSort(bTab);
    if iFilterLen % 2 == 1 {
      r := bTab[(iFilterLen - 1) / 2];
    } else {
      r := HalfTowardZero(bTab[iFilterLen / 2] + bTab[iFilterLen / 2 - 1]);
    }
    assert r == MedianOfSorted(bTab[..]);
    MedianOfSortedPermutation(bArray[..iFilterLen], bTab[..]);
  }
}
