/** The TDS rolling buffer of `myTdsFuction` (src/main.cpp,
    backup/tds2.cpp) and of the `loop` of backup/tds.cpp. A sample step,
    gated at more than 40 ms since the previous sample, writes one reading
    into a 30-slot circular buffer. A compute step, gated at more than
    800 ms since the previous one, copies the buffer into a second array and
    takes the median of that copy. In src/main.cpp and backup/tds2.cpp the
    `return` sits inside the copy loop, so only slot 0 is ever copied; in
    backup/tds.cpp the copy loop runs to the end. Both gates compare
    `unsigned long` differences, which wrap at 2^32. */
module TdsFilter {
  import opened Sorting
  import opened MedianFilter

  datatype Option<T> = None | Some(value: T)

  /** `SCOUNT`: the number of slots of the rolling buffer. */
  const SCOUNT := 30
  /** A value of an `unsigned long` variable, such as a `millis()` reading. */
  type ULong = x: int | 0 <= x < ULONG_MOD
  /** The sample step needs more than this many milliseconds (`40U`). */
  const SAMPLE_PERIOD: ULong := 40
  /** The compute step needs more than this many milliseconds (`800U`). */
  const PRINT_PERIOD: ULong := 800

  /** `now - last` in `unsigned long` arithmetic: the plain difference, or
      the difference plus 2^32 when the clock has wrapped since `last`. */
  function Elapsed(now: ULong, last: ULong): (d: ULong)
    ensures last <= now ==> d == now - last
    ensures now < last ==> d == now - last + ULONG_MOD
  {
    (now - last) % ULONG_MOD
  }

  /** The gate `millis() - last > period`, strict, on `unsigned long`. */
  predicate GateOpen(now: ULong, last: ULong, period: ULong) {
    Elapsed(now, last) > period
  }

  /** The wrap does not disturb the gates: whenever fewer than 2^32 ms
      really passed since `last`, the clock reads `(last + d) mod 2^32` and
      the unsigned difference is exactly `d`, so the gate opens exactly when
      more than `period` ms passed. */
  lemma GateMeasuresTrueDelay(last: ULong, d: int, period: ULong)
    requires 0 <= d < ULONG_MOD
    ensures Elapsed((last + d) % ULONG_MOD, last) == d
    ensures GateOpen((last + d) % ULONG_MOD, last, period) <==> d > period
  {
    if last + d < ULONG_MOD {
      assert (last + d) % ULONG_MOD == last + d;
    } else {
      assert (last + d) % ULONG_MOD == last + d - ULONG_MOD;
    }
  }

  /** The rolling buffer's contents after the accepted readings `samples`,
      oldest first, starting from all slots zero and index 0: reading
      number `i` goes to slot `i mod SCOUNT`. */
  function RingOf(samples: seq<int>): (r: seq<int>)
    ensures |r| == SCOUNT
  {
    if samples == [] then seq(SCOUNT, _ => 0)
    else
      var n := |samples| - 1;
      RingOf(samples[..n])[n % SCOUNT := samples[n]]
  }

  /** The copy after its first `k` slots were refreshed from `current`, the
      rest still holding `previous`. */
  function PartialCopy(current: seq<int>, previous: seq<int>, k: int): seq<int>
    requires 0 <= k <= |current| <= |previous|
  {
    current[..k] + previous[k..]
  }

  /** Refreshing slot `k` of a copy whose first `k` slots are refreshed
      extends the refreshed prefix by one. */
  lemma PartialCopyStep(current: seq<int>, previous: seq<int>, k: int)
    requires 0 <= k < |current| == |previous|
    ensures |PartialCopy(current, previous, k)| == |current|
    ensures PartialCopy(current, previous, k)[k := current[k]] == PartialCopy(current, previous, k + 1)
  {
  }

  /** Storing one more reading overwrites exactly the slot the write index
      points at. */
  lemma RingOfAppend(samples: seq<int>, x: int)
    ensures RingOf(samples + [x]) == RingOf(samples)[|samples| % SCOUNT := x]
  {
    assert (samples + [x])[..|samples|] == samples;
  }

  /** Advancing the write index and wrapping it at `SCOUNT` keeps it equal to
      the number of stored readings modulo `SCOUNT`. */
  lemma NextIndex(count: nat)
    ensures (if count % SCOUNT + 1 == SCOUNT then 0 else count % SCOUNT + 1) == (count + 1) % SCOUNT
  {
  }

  /** Each of the last `SCOUNT` readings sits in slot `i mod SCOUNT`: every
      slot holds the latest reading whose number is congruent to it. */
  lemma {:induction false} RingHoldsLatest(samples: seq<int>, i: int)
    requires 0 <= i < |samples| <= i + SCOUNT
    ensures RingOf(samples)[i % SCOUNT] == samples[i]
  {
    var n := |samples| - 1;
    if i < n {
      var prefix := samples[..n];
      assert prefix[i] == samples[i];
      RingHoldsLatest(prefix, i);
      DistinctSlots(i, n);
      assert RingOf(samples) == RingOf(prefix)[n % SCOUNT := samples[n]];
    }
  }

  /** Fewer than `SCOUNT` readings apart, two readings go to different
      slots. */
  lemma DistinctSlots(i: int, n: int)
    requires 0 <= i < n < i + SCOUNT
    ensures i % SCOUNT != n % SCOUNT
  {
    var q, r := i / SCOUNT, i % SCOUNT;
    assert i == q * SCOUNT + r;
    if r + (n - i) < SCOUNT {
      assert n == q * SCOUNT + (r + (n - i));
    } else {
      assert n == (q + 1) * SCOUNT + (r + (n - i) - SCOUNT);
    }
  }

  /** Slots that no reading has reached yet still hold their initial 0. */
  lemma {:induction false} RingUnwrittenSlotIsZero(samples: seq<int>, slot: int)
    requires |samples| <= slot < SCOUNT
    ensures RingOf(samples)[slot] == 0
  {
    if samples != [] {
      RingUnwrittenSlotIsZero(samples[..|samples| - 1], slot);
    }
  }

  /** After exactly 30 readings from a fresh start, slot `k` holds reading
      `k`: the buffer is the readings in order. */
  lemma RingAfterThirty(samples: seq<int>)
    requires |samples| == SCOUNT
    ensures RingOf(samples) == samples
  {
    var ring := RingOf(samples);
    forall slot | 0 <= slot < SCOUNT
      ensures ring[slot] == samples[slot]
    {
      RingHoldsLatest(samples, slot);
      assert slot % SCOUNT == slot;
    }
  }

  /** After 31 readings from a fresh start, slot 0 holds the 31st reading,
      not the first, and slots 1 to 29 hold readings 2 to 30. */
  lemma RingAfterThirtyOne(samples: seq<int>)
    requires |samples| == SCOUNT + 1
    ensures RingOf(samples)[0] == samples[SCOUNT]
    ensures forall slot :: 1 <= slot < SCOUNT ==> RingOf(samples)[slot] == samples[slot]
  {
    RingHoldsLatest(samples, SCOUNT);
    forall slot | 1 <= slot < SCOUNT
      ensures RingOf(samples)[slot] == samples[slot]
    {
      RingHoldsLatest(samples, slot);
    }
  }

  /** A run of zeros with one more value put at the end when it is not
      negative, at the front when it is, is in ascending order. */
  lemma ZerosWithOneSorted(zeros: seq<int>, x: int)
    requires forall k :: 0 <= k < |zeros| ==> zeros[k] == 0
    ensures x >= 0 ==> Sorted(zeros + [x])
    ensures x < 0 ==> Sorted([x] + zeros)
  {
  }

  /** A 30-value table that is zero everywhere except perhaps slot 0 has
      median 0, whatever the sign of slot 0: after sorting, both middle
      elements are zeros. */
  lemma MedianOfZeroPadded(s: seq<int>)
    requires |s| == SCOUNT
    requires forall k :: 1 <= k < SCOUNT ==> s[k] == 0
    ensures Median(s) == 0
  {
    var c := ZeroPaddedArrangement(s);
    assert MedianOfSorted(c) == 0;
    MedianOfSortedPermutation(s, c);
  }

  /** The ascending arrangement of a table that is zero except perhaps in
      slot 0: slot 0 moves to the end when it is not negative and stays in
      front otherwise, and the middle slots hold zeros. */
  lemma ZeroPaddedArrangement(s: seq<int>) returns (c: seq<int>)
    requires |s| == SCOUNT
    requires forall k :: 1 <= k < SCOUNT ==> s[k] == 0
    ensures |c| == SCOUNT && Sorted(c) && multiset(c) == multiset(s)
    ensures c[SCOUNT / 2] == 0 && c[SCOUNT / 2 - 1] == 0
  {
    var x, zeros := s[0], s[1..];
    assert s == [x] + zeros;
    assert forall k :: 0 <= k < |zeros| ==> zeros[k] == 0;
    ZerosWithOneSorted(zeros, x);
    c := if x >= 0 then zeros + [x] else [x] + zeros;
    assert multiset(c) == multiset(zeros) + multiset{x} == multiset(s);
  }

  /** Thirty readings of 100 from a fresh start: the rolling buffer holds
      100 in every slot and its median is 100, but the table the early-return
      compute step hands to the median filter is 100 followed by 29 zeros,
      whose median is 0. */
  lemma EarlyReturnMissesBuffer()
    ensures Median(RingOf(seq(SCOUNT, _ => 100))) == 100
    ensures Median(seq(SCOUNT, _ => 0)[0 := 100]) == 0
  {
    var samples := seq(SCOUNT, _ => 100);
    RingAfterThirty(samples);
    MedianOfSortedInput(samples);
    MedianOfZeroPadded(seq(SCOUNT, _ => 0)[0 := 100]);
  }

  /** The global and function-local static state of the TDS filter. */
  class TdsPipeline {
    /** `tds_buffer_tds` (`analogBuffer` in backup/tds.cpp) */
    var buffer: array<int>
    /** `tds_buffer_temp` (`analogBufferTemp`) */
    var temp: array<int>
    /** `tds_buffer_index` (`analogBufferIndex`) */
    var index: int
    /** `tds_copy_index` (`copyIndex`) */
    var copyIndex: int
    /** the static `analogSampleTimepoint` */
    var sampleTimepoint: ULong
    /** the static `printTimepoint` */
    var printTimepoint: ULong
    /** Every reading the sample step has stored so far, oldest first. */
    ghost var Samples: seq<int>

    /** The rolling buffer holds what the stored readings put there, and the
        write index stays within the buffer, one past the last slot written. */
    ghost predicate Valid()
      reads this, buffer
    {
      && buffer.Length == SCOUNT
      && temp.Length == SCOUNT
      && buffer != temp
      && 0 <= index < SCOUNT
      && index == |Samples| % SCOUNT
      && buffer[..] == RingOf(Samples)
    }

    /** Slots 1 to 29 of the copy are still zero. */
    ghost predicate TempTailZero()
      reads this, temp
    {
      temp.Length == SCOUNT && forall k :: 1 <= k < SCOUNT ==> temp[k] == 0
    }

    /** State before the first call: the arrays and indices are zero-initialised
        globals, and both statics are initialised from the clock on the first
        call, here `start`. */
    constructor (start: ULong)
      ensures Valid() && TempTailZero()
      ensures fresh(buffer) && fresh(temp)
      ensures Samples == [] && index == 0 && copyIndex == 0
      ensures temp[..] == seq(SCOUNT, _ => 0)
      ensures sampleTimepoint == start && printTimepoint == start
    {
      buffer := new int[SCOUNT](_ => 0);
      temp := new int[SCOUNT](_ => 0);
      index, copyIndex := 0, 0;
      sampleTimepoint, printTimepoint := start, start;
      Samples := [];
    }

    /** The sample step: when more than 40 ms passed since the last sample,
        `reading` (the value of `analogRead`) overwrites exactly the slot at
        the write index, the index advances and wraps at `SCOUNT`, and the
        sample time becomes `now`. Otherwise nothing changes. */
    method SampleStep(now: ULong, reading: int) returns (fired: bool)
      requires Valid()
      modifies this, buffer
      ensures Valid()
      ensures buffer == old(buffer) && temp == old(temp)
      ensures printTimepoint == old(printTimepoint) && copyIndex == old(copyIndex)
      ensures fired == GateOpen(now, old(sampleTimepoint), SAMPLE_PERIOD)
      ensures fired ==> && sampleTimepoint == now
                        && buffer[..] == old(buffer[..])[old(index) := reading]
                        && index == (old(index) + 1) % SCOUNT
                        && Samples == old(Samples) + [reading]
      ensures !fired ==> && sampleTimepoint == old(sampleTimepoint)
                         && buffer[..] == old(buffer[..])
                         && index == old(index)
                         && Samples == old(Samples)
    {
      fired := Elapsed(now, sampleTimepoint) > SAMPLE_PERIOD;
      if fired {
        RingOfAppend(Samples, reading);
        NextIndex(|Samples|);
        sampleTimepoint := now;
        buffer[index] := reading;
        index := index + 1;
        if index == SCOUNT {
          index := 0;
        }
        Samples := Samples + [reading];
      }
    }

    /** The compute step of src/main.cpp and backup/tds2.cpp: when more than
        800 ms passed since the last one, the print time becomes `now` and
        the copy loop starts, but its body returns during the first
        iteration, so only slot 0 of the copy is refreshed before the median
        is taken. When the gate is closed the source falls off the end of
        the function without a value: `None`. */
    method ComputeStepEarlyReturn(now: ULong) returns (median: Option<int>)
      requires Valid()
      modifies this`printTimepoint, this`copyIndex, temp
      ensures Valid()
      ensures median.Some? == GateOpen(now, old(printTimepoint), PRINT_PERIOD)
      ensures median.Some? ==> && printTimepoint == now
                               && copyIndex == 0
                               && temp[..] == old(temp[..])[0 := buffer[0]]
                               && median.value == Median(temp[..])
      ensures median.None? ==> && printTimepoint == old(printTimepoint)
                               && copyIndex == old(copyIndex)
                               && temp[..] == old(temp[..])
      ensures old(TempTailZero()) ==> TempTailZero() && (median.Some? ==> median.value == 0)
    {
      if Elapsed(now, printTimepoint) > PRINT_PERIOD {
        printTimepoint := now;
        // The copy loop starts at slot 0, and its body ends in `return`.
        copyIndex := 0;
        temp[copyIndex] := buffer[copyIndex];
        var m := GetMedianNum(temp, SCOUNT);
        assert temp[..SCOUNT] == temp[..];
        if old(TempTailZero()) {
          MedianOfZeroPadded(temp[..]);
        }
        median := Some(m);
      } else {
        median := None;
      }
    }

    /** One iteration of the copy loop of backup/tds.cpp: slot `copyIndex`
        of the copy is refreshed from the rolling buffer, the index advances,
        and the median of the whole copy is taken. */
    method RefreshSlot(ghost current: seq<int>, ghost previous: seq<int>) returns (m: int)
      requires buffer.Length == SCOUNT && temp.Length == SCOUNT && buffer != temp
      requires buffer[..] == current && |previous| == SCOUNT
      requires 0 <= copyIndex < SCOUNT
      requires temp[..] == PartialCopy(current, previous, copyIndex)
      modifies this`copyIndex, temp
      ensures copyIndex == old(copyIndex) + 1
      ensures temp[..] == PartialCopy(current, previous, copyIndex)
      ensures m == Median(PartialCopy(current, previous, copyIndex))
    {
      PartialCopyStep(current, previous, copyIndex);
      temp[copyIndex] := buffer[copyIndex];
      copyIndex := copyIndex + 1;
      m := GetMedianNum(temp, SCOUNT);
      assert temp[..SCOUNT] == temp[..];
    }

    /** The copy loop of backup/tds.cpp, run to completion: slot `c` is
        copied and then the median of the partly refreshed copy is taken (and
        printed). `medians` lists those medians in order; the last one is the
        median of the whole buffer. */
    method CopyAndFilter() returns (medians: seq<int>)
      requires buffer.Length == SCOUNT && temp.Length == SCOUNT && buffer != temp
      modifies this`copyIndex, temp
      ensures copyIndex == SCOUNT && temp[..] == buffer[..]
      ensures |medians| == SCOUNT
      ensures forall c :: 0 <= c < SCOUNT ==>
                medians[c] == Median(PartialCopy(buffer[..], old(temp[..]), c + 1))
      ensures medians[SCOUNT - 1] == Median(buffer[..])
    {
      ghost var current, previous := buffer[..], temp[..];
      medians := [];
      copyIndex := 0;
      while copyIndex < SCOUNT
        invariant 0 <= copyIndex <= SCOUNT
        invariant temp[..] == PartialCopy(current, previous, copyIndex)
        invariant |medians| == copyIndex
        invariant forall c :: 0 <= c < copyIndex ==>
                    medians[c] == Median(PartialCopy(current, previous, c + 1))
      {
        var m := RefreshSlot(current, previous);
        medians := medians + [m];
      }
      assert PartialCopy(current, previous, SCOUNT) == current;
    }

    /** The compute step of backup/tds.cpp: when more than 800 ms passed
        since the last one, the print time becomes `now` and the whole copy
        loop runs. `medians` is empty when the gate is closed. */
    method ComputeStepFullCopy(now: ULong) returns (medians: seq<int>)
      requires Valid()
      modifies this`printTimepoint, this`copyIndex, temp
      ensures Valid()
      ensures (medians != []) == GateOpen(now, old(printTimepoint), PRINT_PERIOD)
      ensures medians != [] ==>
        && printTimepoint == now
        && copyIndex == SCOUNT
        && temp[..] == buffer[..]
        && |medians| == SCOUNT
        && (forall c :: 0 <= c < SCOUNT ==>
              medians[c] == Median(PartialCopy(buffer[..], old(temp[..]), c + 1)))
        && medians[SCOUNT - 1] == Median(buffer[..])
      ensures medians == [] ==> && printTimepoint == old(printTimepoint)
                                && copyIndex == old(copyIndex)
                                && temp[..] == old(temp[..])
    {
      medians := [];
      if Elapsed(now, printTimepoint) > PRINT_PERIOD {
        printTimepoint := now;
        medians := CopyAndFilter();
      }
    }

    /** `myTdsFuction` of src/main.cpp and backup/tds2.cpp: a sample step
        then a compute step, both against the clock value `now`. The copy is
        refreshed in slot 0 only, after the sample step, so a reading stored
        by this call can reach it. Once the copy's tail is zero, as it is from
        the start, it stays zero, and every value computed is the median of a
        table with 29 zeros: 0. */
    method Update(now: ULong, reading: int) returns (median: Option<int>)
      requires Valid()
      modifies this, buffer, temp
      ensures Valid()
      ensures buffer == old(buffer) && temp == old(temp)
      ensures Samples == if GateOpen(now, old(sampleTimepoint), SAMPLE_PERIOD)
                         then old(Samples) + [reading] else old(Samples)
      ensures sampleTimepoint == if GateOpen(now, old(sampleTimepoint), SAMPLE_PERIOD)
                                 then now else old(sampleTimepoint)
      ensures median.Some? == GateOpen(now, old(printTimepoint), PRINT_PERIOD)
      ensures median.Some? ==> && printTimepoint == now
                               && copyIndex == 0
                               && temp[..] == old(temp[..])[0 := buffer[0]]
                               && median.value == Median(temp[..])
      ensures median.None? ==> && printTimepoint == old(printTimepoint)
                               && copyIndex == old(copyIndex)
                               && temp[..] == old(temp[..])
      ensures old(TempTailZero()) ==> TempTailZero() && (median.Some? ==> median.value == 0)
    {
      var _ := SampleStep(now, reading);
      median := ComputeStepEarlyReturn(now);
    }

    /** The `loop` of backup/tds.cpp: a sample step then a compute step with
        the full copy. The `c`-th median printed is that of the copy whose
        first `c + 1` slots were refreshed from the buffer as it is after
        sampling; the last is that of the rolling buffer holding all
        readings stored so far. */
    method LoopFullCopy(now: ULong, reading: int) returns (medians: seq<int>)
      requires Valid()
      modifies this, buffer, temp
      ensures Valid()
      ensures buffer == old(buffer) && temp == old(temp)
      ensures Samples == if GateOpen(now, old(sampleTimepoint), SAMPLE_PERIOD)
                         then old(Samples) + [reading] else old(Samples)
      ensures sampleTimepoint == if GateOpen(now, old(sampleTimepoint), SAMPLE_PERIOD)
                                 then now else old(sampleTimepoint)
      ensures (medians != []) == GateOpen(now, old(printTimepoint), PRINT_PERIOD)
      ensures medians != [] ==> && printTimepoint == now
                                && copyIndex == SCOUNT
                                && temp[..] == buffer[..]
                                && |medians| == SCOUNT
                                && (forall c :: 0 <= c < SCOUNT ==>
                                      medians[c] == Median(PartialCopy(buffer[..], old(temp[..]), c + 1)))
                                && medians[SCOUNT - 1] == Median(RingOf(Samples))
      ensures medians == [] ==> && printTimepoint == old(printTimepoint)
                                && copyIndex == old(copyIndex)
                                && temp[..] == old(temp[..])
    {
      ghost var copy := temp[..];
      var _ := SampleStep(now, reading);
      assert temp[..] == copy;
      medians := ComputeStepFullCopy(now);
    }
  }

  /** The `loop` of backup/tds2.cpp: `myTdsFuction` called over and over from
      power-on, the `i`-th call seeing clock value `nows[i]` and, when it
      samples, reading `readings[i]`. Every value it hands back is 0, whatever
      the readings and the timing. */
  method RunEarlyReturn(start: ULong, nows: seq<ULong>, readings: seq<int>)
    returns (values: seq<Option<int>>)
    requires |readings| == |nows|
    ensures |values| == |nows|
    ensures forall i :: 0 <= i < |values| && values[i].Some? ==> values[i].value == 0
  {
    var pipeline := new TdsPipeline(start);
    values := [];
    var i := 0;
    while i < |nows|
      invariant 0 <= i <= |nows| && |values| == i
      invariant pipeline.Valid() && pipeline.TempTailZero()
      invariant fresh(pipeline.buffer) && fresh(pipeline.temp)
      invariant forall k :: 0 <= k < i && values[k].Some? ==> values[k].value == 0
    {
      var v := pipeline.Update(nows[i], readings[i]);
      values := values + [v];
      i := i + 1;
    }
  }
}
