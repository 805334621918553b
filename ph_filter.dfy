/** The pH burst filter of `myPhFuction` (src/main.cpp, backup/ph2.cpp) and
    of the `loop` of backup/ph.cpp: read ten samples into a global array,
    exchange-sort the array in place, and add up the six middle values into
    the `unsigned long` accumulator `ph_avg_val`. The voltage and
    calibration formulas that follow are floating point and are not part of
    this model. */
module PhFilter {
  import opened Sorting

  /** Length of the burst buffer `ph_buffer_arr`. */
  const PH_SAMPLES := 10
  /** First index kept by the trimmed sum (the two smallest are dropped). */
  const TRIM_LO := 2
  /** One past the last index kept (the two largest are dropped). */
  const TRIM_HI := 8

  /** A value `analogRead` can return: a 16-bit unsigned reading. */
  predicate IsReading(x: int) {
    0 <= x < 0x1_0000
  }

  /** `ph_avg_val` after one burst of `samples`: the sum of the six middle
      values of the ascending arrangement, in `unsigned long` arithmetic. */
  function TrimmedSum(samples: seq<int>): int
    requires |samples| == PH_SAMPLES
  {
    Sum(SortSeq(samples)[TRIM_LO..TRIM_HI]) % ULONG_MOD
  }

  /** Adding to an `unsigned long` that already wrapped gives the same
      result as wrapping once at the end. */
  lemma AddModU32(a: int, b: int)
    ensures (a % ULONG_MOD + b) % ULONG_MOD == (a + b) % ULONG_MOD
  {
    var q := a / ULONG_MOD;
    assert a == q * ULONG_MOD + a % ULONG_MOD;
    assert a + b == q * ULONG_MOD + (a % ULONG_MOD + b);
  }

  /** A value already within the range of `unsigned long` is unchanged by
      the wrap. */
  lemma ModOfInRange(x: int)
    requires 0 <= x < ULONG_MOD
    ensures x % ULONG_MOD == x
  {
  }

  /** Six values within `[lo, hi]`, all readings, sum to a value that fits
      an `unsigned long` and lies between `6 * lo` and `6 * hi`. */
  lemma SixReadingsFit(kept: seq<int>, lo: int, hi: int)
    requires |kept| == TRIM_HI - TRIM_LO
    requires 0 <= lo && hi < 0x1_0000
    requires forall k :: 0 <= k < |kept| ==> lo <= kept[k] <= hi
    ensures Sum(kept) % ULONG_MOD == Sum(kept)
    ensures 6 * lo <= Sum(kept) <= 6 * hi
  {
    SumBounds(kept, lo, hi);
    ModOfInRange(Sum(kept));
  }

  /** The six kept values lie between the smallest and the largest
      sample. */
  lemma KeptWithinRange(samples: seq<int>)
    requires |samples| == PH_SAMPLES
    ensures forall k :: TRIM_LO <= k < TRIM_HI ==>
              Minimum(samples) <= SortSeq(samples)[k] <= Maximum(samples)
  {
    forall k | TRIM_LO <= k < TRIM_HI
      ensures Minimum(samples) <= SortSeq(samples)[k] <= Maximum(samples)
    {
      SortSeqWithinRange(samples, k);
    }
  }

  /** For ten readings the accumulator cannot wrap: `ph_avg_val` is the
      exact sum of the six kept values, which lies between six times the
      smallest and six times the largest sample. */
  lemma TrimmedSumOfReadings(samples: seq<int>)
    requires |samples| == PH_SAMPLES
    requires forall k :: 0 <= k < |samples| ==> IsReading(samples[k])
    ensures TrimmedSum(samples) == Sum(SortSeq(samples)[TRIM_LO..TRIM_HI])
    ensures 6 * Minimum(samples) <= TrimmedSum(samples) <= 6 * Maximum(samples)
  {
    var sorted := SortSeq(samples);
    var kept := sorted[TRIM_LO..TRIM_HI];
    var lo, hi := Minimum(samples), Maximum(samples);
    KeptWithinRange(samples);
    assert forall k :: 0 <= k < |kept| ==> kept[k] == sorted[k + TRIM_LO];
    assert IsReading(lo) && IsReading(hi);
    SixReadingsFit(kept, lo, hi);
  }

  /** Sorting first makes the trimmed sum independent of the order in which
      the ten samples arrived. */
  lemma TrimmedSumPermutationInvariant(samples: seq<int>, shuffled: seq<int>)
    requires |samples| == PH_SAMPLES
    requires multiset(shuffled) == multiset(samples)
    ensures |shuffled| == PH_SAMPLES
    ensures TrimmedSum(shuffled) == TrimmedSum(samples)
  {
    assert |multiset(shuffled)| == |shuffled| && |multiset(samples)| == |samples|;
    SortedUnique(SortSeq(samples), SortSeq(shuffled));
  }

  /** A constant burst of `v` gives `6 * v` (wrapped to 32 bits), and exactly
      `6 * v` when `v` is a reading. */
  lemma TrimmedSumConstant(samples: seq<int>, v: int)
    requires |samples| == PH_SAMPLES
    requires forall k :: 0 <= k < |samples| ==> samples[k] == v
    ensures TrimmedSum(samples) == (6 * v) % ULONG_MOD
    ensures IsReading(v) ==> TrimmedSum(samples) == 6 * v
  {
    SortedPermutationIsSortSeq(samples, samples);
    SumConstant(samples[TRIM_LO..TRIM_HI], v);
  }

  /** A sequence whose head is at most all of its elements starts with the
      minimum of any of its permutations. */
  lemma LeastOfPermutation(cur: seq<int>, orig: seq<int>)
    requires |cur| > 0 && multiset(cur) == multiset(orig)
    requires forall k :: 0 < k < |cur| ==> cur[0] <= cur[k]
    ensures |orig| > 0 && cur[0] == Minimum(orig)
  {
    assert |multiset(cur)| == |cur| && |multiset(orig)| == |orig|;
    var least := Minimum(orig);
    assert cur[0] in multiset(orig);
    assert least in multiset(cur);
  }

  /** What one exchange pass achieves: when the slots before `i` are as
      they were, the whole is a permutation of the original and slot `i` is
      at most every later slot, then slot `i` holds the minimum of the
      original suffix and the suffix is a permutation of it. */
  lemma PassLeavesMinimum(cur: seq<int>, orig: seq<int>, i: int)
    requires 0 <= i < |cur| == |orig|
    requires cur[..i] == orig[..i] && multiset(cur) == multiset(orig)
    requires forall k :: i < k < |cur| ==> cur[i] <= cur[k]
    ensures multiset(cur[i..]) == multiset(orig[i..])
    ensures cur[i] == Minimum(orig[i..])
  {
    SuffixPermutation(cur, orig, i);
    LeastOfPermutation(cur[i..], orig[i..]);
  }

  /** The global state of the pH filter. */
  class PhSensor {
    /** `ph_buffer_arr` */
    var buffer: array<int>
    /** `ph_avg_val`, an `unsigned long` */
    var avg: int

    ghost predicate Valid()
      reads this
    {
      buffer.Length == PH_SAMPLES && 0 <= avg < ULONG_MOD
    }

    /** Globals start out zero. */
    constructor ()
      ensures Valid() && fresh(buffer)
      ensures buffer[..] == seq(PH_SAMPLES, _ => 0) && avg == 0
    {
      buffer := new int[PH_SAMPLES](_ => 0);
      avg := 0;
    }

    /** The read loop: `samples[i]` is the value of the `i`-th `analogRead`
        and goes to slot `i`; the 30 ms delays are not modelled. */
    method ReadBurst(samples: seq<int>)
      requires Valid() && |samples| == PH_SAMPLES
      modifies buffer
      ensures Valid() && buffer[..] == samples
    {
      var i := 0;
      while i < PH_SAMPLES
        invariant 0 <= i <= PH_SAMPLES
        invariant buffer[..i] == samples[..i]
      {
        buffer[i] := samples[i];
        i := i + 1;
      }
    }

    /** Inner loop of the exchange sort for outer index `i`: every later
        element smaller than `buffer[i]` is swapped into slot `i`, so the
        slot ends holding the minimum of the suffix as it was when the pass
        began. The prefix before `i`, already holding the smallest values in
        order, is not touched. */
    method ExchangePass(i: int)
      requires Valid() && 0 <= i < PH_SAMPLES
      requires Partitioned(buffer[..], i)
      modifies buffer
      ensures Valid()
      ensures buffer[i] == Minimum(old(buffer[i..]))
      ensures forall k :: i < k < PH_SAMPLES ==> buffer[i] <= buffer[k]
      ensures buffer[..i] == old(buffer[..i])
      ensures Partitioned(buffer[..], i)
      ensures multiset(buffer[i..]) == multiset(old(buffer[i..]))
      ensures multiset(buffer[..]) == multiset(old(buffer[..]))
    {
      var a := buffer;
      var j := i + 1;
      while j < PH_SAMPLES
        invariant i + 1 <= j <= PH_SAMPLES
        invariant forall k :: i < k < j ==> a[i] <= a[k]
        invariant a[..i] == old(a[..i])
        invariant Partitioned(a[..], i)
        invariant multiset(a[..]) == multiset(old(a[..]))
      {
        if a[i] > a[j] {
          Swap(a, i, j);
        }
        j := j + 1;
      }
      PassLeavesMinimum(a[..], old(a[..]), i);
    }

    /** The exchange sort: after pass `i` the prefix `buffer[..i + 1]` holds
        the `i + 1` smallest samples in ascending order. */
    method ExchangeSort()
      requires Valid()
      modifies buffer
      ensures Valid()
      ensures Sorted(buffer[..])
      ensures multiset(buffer[..]) == multiset(old(buffer[..]))
      ensures buffer[..] == SortSeq(old(buffer[..]))
    {
      var i := 0;
      while i < PH_SAMPLES - 1
        invariant 0 <= i <= PH_SAMPLES - 1
        invariant Valid()
        invariant Sorted(buffer[..i])
        invariant Partitioned(buffer[..], i)
        invariant multiset(buffer[..]) == multiset(old(buffer[..]))
      {
        ExchangePass(i);
        GrowSortedPrefix(buffer[..], i);
        i := i + 1;
      }
      SortedFromPrefix(buffer[..]);
      SortedPermutationIsSortSeq(old(buffer[..]), buffer[..]);
    }

    /** The accumulation loop: `ph_avg_val` is reset and the values at
        indices 2 to 7 are added to it in `unsigned long` arithmetic. */
    method SumMiddle()
      requires Valid()
      modifies this`avg
      ensures Valid()
      ensures avg == Sum(buffer[TRIM_LO..TRIM_HI]) % ULONG_MOD
    {
      avg := 0;
      var i := TRIM_LO;
      while i < TRIM_HI
        invariant TRIM_LO <= i <= TRIM_HI
        invariant avg == Sum(buffer[TRIM_LO..i]) % ULONG_MOD
      {
        assert buffer[TRIM_LO..i + 1][..i - TRIM_LO] == buffer[TRIM_LO..i];
        AddModU32(Sum(buffer[TRIM_LO..i]), buffer[i]);
        avg := (avg + buffer[i]) % ULONG_MOD;
        i := i + 1;
      }
    }

    /** One burst: `myPhFuction` up to the value it feeds to the voltage
        formula. The buffer ends as the ascending arrangement of the burst
        and `ph_avg_val` as its trimmed sum. */
    method Measure(samples: seq<int>) returns (sum: int)
      requires Valid() && |samples| == PH_SAMPLES
      modifies this`avg, buffer
      ensures Valid()
      ensures buffer[..] == SortSeq(samples)
      ensures avg == TrimmedSum(samples) && sum == avg
    {
      ReadBurst(samples);
      ExchangeSort();
      SumMiddle();
      sum := avg;
    }
  }
}
