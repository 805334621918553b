# Hydroponics sensor filters: a Dafny model

This project models the integer signal conditioning of an ESP32 hydroponics
controller. That conditioning sits in front of the floating-point pH and TDS
formulas. There are three filters, each copied across several sketches:

- **pH burst filter** (`myPhFuction` in src/main.cpp and backup/ph2.cpp,
  `loop` in backup/ph.cpp). It reads ten samples into a global array and
  exchange-sorts them in place. It then adds the six middle values (indices
  2 to 7) into the `unsigned long` accumulator `ph_avg_val`.
- **Median filter** `getMedianNum` (src/main.cpp, backup/tds.cpp,
  backup/tds2.cpp). It copies the first `iFilterLen` values into a local
  table and bubble-sorts the table. It returns the middle element when the
  length is odd. When the length is even it returns the truncated average of
  the two middle elements.
- **TDS rolling buffer** (`myTdsFuction` in src/main.cpp and
  backup/tds2.cpp, `loop` in backup/tds.cpp). A sample step writes one
  reading into a 30-slot circular buffer. It fires when more than 40 ms have
  passed since the last sample. A compute step fires when more than 800 ms
  have passed since the last one. It copies the buffer and takes the median
  of the copy. Both gates compare `unsigned long` differences, which wrap at
  2^32.

Modules:

- `Sorting` (sorting.dfy) holds the definitions both filters share:
  - `Sorted` and `Partitioned`
  - the reference insertion sort `SortSeq`, with the proof that a sorted
    permutation is unique
  - the in-place `Swap`
  - `Minimum`, `Maximum` and `Sum`
- `MedianFilter` (median_filter.dfy) holds:
  - `getMedianNum` as the method `GetMedianNum`, over an in-place bubble
    sort, proved equal to the specification function `Median`
  - C's truncating division by two, as `HalfTowardZero`
- `PhFilter` (ph_filter.dfy) holds the class `PhSensor`. Its fields are the
  global buffer and the accumulator, and its methods are the read loop, the
  exchange sort and the accumulation loop. These are proved against
  `SortSeq` and the specification function `TrimmedSum`.
- `TdsFilter` (tds_filter.dfy) holds the class `TdsPipeline`. Its fields
  are the two buffers, the indices and the two static timepoints. A ghost
  history of the stored readings ties the buffer to the specification
  function `RingOf`.

`analogRead` and `millis()` become parameters: a reading and a clock value
`now`. Time values are integers in `[0, 2^32)`, and the unsigned difference
is `(now - last) mod 2^32`.

The median filter's copy and sort work on a fresh local array, so the input
array is not modified. This holds by construction: `GetMedianNum` has no
`modifies` clause. The range bound of its result, between the smallest and
largest input, is stated once, in `MedianFilter.MedianWithinRange`.

The three copies of `getMedianNum` are identical, and so are the three
copies of the pH filter. Each is modelled once, and the table cites every
copy.

## Model

| member | source | states |
|---|---|---|
| Sorting.SortSeq | src/main.cpp:92-104 | the reference sort is an ascending permutation of its input |
| Sorting.SortedUnique | src/main.cpp:92-104 | two ascending sequences holding the same values are equal, so every correct sort yields the same arrangement |
| Sorting.SortedPermutationIsSortSeq | backup/ph2.cpp:47-59 | any ascending permutation of the samples is the reference sort of them |
| Sorting.GrowSortedPrefix | src/main.cpp:92-104 | exchange-sort outer invariant: a sorted prefix of the smallest values grows by one when the next slot holds a value at most everything after it |
| Sorting.SortedFromPrefix | src/main.cpp:92-104 | when every pass has put the smallest remaining value in place, the last slot holds the largest and the whole buffer is ascending |
| Sorting.SuffixPermutation | backup/ph.cpp:37-49 | swaps that leave the prefix alone permute the suffix |
| Sorting.SumBounds | src/main.cpp:106-108 | a sum of n terms in [lo, hi] lies in [n*lo, n*hi] |
| Sorting.SumConstant | backup/ph2.cpp:61-63 | n copies of v sum to n*v |
| Sorting.SortSeqWithinRange | backup/ph.cpp:37-53 | every element of the sorted samples lies between the smallest and largest sample |
| Sorting.Swap | src/main.cpp:99-101 | the three-assignment swap exchanges two slots, leaves the others, and preserves the multiset |
| MedianFilter.HalfTowardZero | src/main.cpp:194 | C++ `int` division by 2 truncates toward zero: the remainder is 0 or 1 and has the sign of the dividend |
| MedianFilter.HalfOfSumBetween | src/main.cpp:194 | the truncated average of two values lies between them |
| MedianFilter.MedianOfSortedBetween | backup/tds2.cpp:50-58 | the parity median of a sorted table lies within any bounds on its elements |
| MedianFilter.MedianWithinRange | src/main.cpp:188-196 | the median lies between the smallest and the largest input |
| MedianFilter.MedianPermutationInvariant | backup/tds.cpp:23-56 | the median depends only on the multiset of inputs, not their order |
| MedianFilter.MedianOfSortedInput | backup/tds.cpp:47-55 | on ascending input, odd length gives the element at (n-1)/2 and even length gives the truncated average of the elements at n/2-1 and n/2 |
| MedianFilter.MedianOfOneToThirty | backup/tds2.cpp:56 | for the ascending table 1..30 the even branch averages 15 and 16 and truncates to 15 |
| MedianFilter.MedianOfSortedPermutation | src/main.cpp:167-196 | the parity median read off any sorted copy of the input is the input's median and lies within its range |
| MedianFilter.BubblePass | src/main.cpp:175-184 | one inner pass carries the largest value of the unsorted prefix to its last slot, leaves the sorted tail alone, and permutes the array |
| MedianFilter.BubbleSort | backup/tds2.cpp:35-47 | the nested bubble loops leave the table ascending and a permutation of what it held |
| MedianFilter.GetMedianNum | src/main.cpp:164-197 | for 1 <= iFilterLen <= 255, the result is the median of the first iFilterLen values of bArray: middle element for odd length, truncated average of the two middle elements for even length |
| PhFilter.AddModU32 | src/main.cpp:107-108 | adding into an `unsigned long` step by step wraps the same as wrapping the total once |
| PhFilter.SixReadingsFit | backup/ph.cpp:51-53 | six 16-bit readings within [lo, hi] sum to at most 6*65535, so the accumulator does not wrap |
| PhFilter.TrimmedSumOfReadings | src/main.cpp:106-108 | for 16-bit readings `ph_avg_val` is the exact sum of the sorted values at indices 2..7 and lies between 6*min and 6*max of the samples |
| PhFilter.TrimmedSumPermutationInvariant | backup/ph.cpp:37-53 | the trimmed sum does not depend on the order in which the samples were read |
| PhFilter.TrimmedSumConstant | backup/ph2.cpp:40-63 | ten equal samples v give 6*v (wrapped to 32 bits), exactly 6*v for a reading |
| PhFilter.KeptWithinRange | src/main.cpp:106-108 | the six kept sorted values lie between the smallest and the largest sample |
| PhFilter.PassLeavesMinimum | src/main.cpp:94-103 | an inner pass that leaves the prefix, permutes the buffer and ends with slot i at most every later slot has put the minimum of the original suffix in slot i |
| PhFilter.LeastOfPermutation | backup/ph2.cpp:47-59 | a slot at most all later slots of a permuted suffix holds that suffix's original minimum |
| PhFilter.PhSensor.constructor | src/main.cpp:28-31 | globals start zero: the buffer is ten zeros and the accumulator 0 |
| PhFilter.PhSensor.ReadBurst | backup/ph.cpp:30-34 | the read loop puts the i-th reading in slot i, for exactly the ten slots |
| PhFilter.PhSensor.ExchangePass | backup/ph2.cpp:49-58 | after outer pass i, slot i holds the minimum of the original suffix i..9 and is at most every later slot; the prefix is untouched and the array is permuted |
| PhFilter.PhSensor.ExchangeSort | src/main.cpp:92-104 | the exchange sort leaves the buffer ascending, a permutation of the samples, and equal to their reference sort |
| PhFilter.PhSensor.SumMiddle | backup/ph2.cpp:61-63 | `ph_avg_val` becomes the sum of slots 2..7 in `unsigned long` arithmetic |
| PhFilter.PhSensor.Measure | src/main.cpp:85-108 | one burst leaves the buffer holding the sorted samples and `ph_avg_val` holding their trimmed sum |
| TdsFilter.Elapsed | src/main.cpp:120 | the unsigned difference `millis() - last` is the plain difference, or that plus 2^32 when the clock wrapped |
| TdsFilter.GateMeasuresTrueDelay | backup/tds.cpp:75 | across a clock wrap the unsigned difference still equals the true delay, so the gate opens exactly when more than the period has passed |
| TdsFilter.RingOfAppend | src/main.cpp:123 | storing one more reading overwrites exactly the slot the write index points at |
| TdsFilter.NextIndex | backup/tds2.cpp:89-93 | incrementing the index and wrapping at 30 yields the count of stored readings mod 30 |
| TdsFilter.DistinctSlots | backup/tds.cpp:78-83 | two readings fewer than 30 apart go to different slots |
| TdsFilter.RingHoldsLatest | backup/tds.cpp:78-83 | each slot s holds the latest reading whose 0-based ordinal i satisfies i mod 30 == s |
| TdsFilter.RingUnwrittenSlotIsZero | src/main.cpp:38 | slots no reading has reached keep their zero initial value |
| TdsFilter.RingAfterThirty | backup/tds.cpp:78-83 | after exactly 30 readings from index 0 the buffer holds the readings in order |
| TdsFilter.RingAfterThirtyOne | backup/tds2.cpp:88-93 | after 31 readings from index 0, slot 0 holds the 31st reading and slots 1..29 hold readings 2..30 |
| TdsFilter.PartialCopyStep | backup/tds.cpp:93-95 | copying slot k into a copy refreshed up to k yields the copy refreshed up to k+1 |
| TdsFilter.ZeroPaddedArrangement | src/main.cpp:173-185 | a 30-slot table zero except in slot 0 has an ascending arrangement, a permutation of it, whose two middle slots hold 0 |
| TdsFilter.MedianOfZeroPadded | src/main.cpp:138-158 | a 30-slot table zero everywhere but slot 0 has median 0, whatever slot 0 holds |
| TdsFilter.EarlyReturnMissesBuffer | src/main.cpp:138-158 | thirty readings of 100 give a buffer whose median is 100, but the early-return copy hands the filter a table whose median is 0 |
| TdsFilter.TdsPipeline.constructor | src/main.cpp:117-132 | both static timepoints (lines 117 and 132) set from the clock value at the first call, with the buffers and indices zero as the globals of lines 38-43 start |
| TdsFilter.TdsPipeline.SampleStep | src/main.cpp:119-129 | fires exactly when the unsigned difference exceeds 40; it then overwrites only the slot at the index, advances the index mod 30 and sets the timepoint to now, and otherwise changes nothing |
| TdsFilter.TdsPipeline.ComputeStepEarlyReturn | backup/tds2.cpp:99-124 | fires exactly when the unsigned difference exceeds 800 and sets the timepoint to now; only copy slot 0 is refreshed and the index stays 0; the value is the median of that copy, and 0 while slots 1..29 are zero; no value when the gate is closed |
| TdsFilter.TdsPipeline.RefreshSlot | backup/tds.cpp:95-98 | one copy-loop iteration copies slot copyIndex and returns the median of the partly refreshed copy |
| TdsFilter.TdsPipeline.CopyAndFilter | backup/tds.cpp:93-113 | the full copy loop leaves the copy equal to the buffer; the c-th median is that of the copy refreshed up to c, and the last one is the median of the whole buffer |
| TdsFilter.TdsPipeline.ComputeStepFullCopy | backup/tds.cpp:89-114 | fires exactly when the unsigned difference exceeds 800, sets the timepoint to now and runs the full copy loop; nothing changes when the gate is closed |
| TdsFilter.TdsPipeline.Update | src/main.cpp:114-161 | `myTdsFuction` keeps the same two arrays; it stores a reading and sets the sample time to now exactly when the 40 ms gate opens; it yields a value exactly when the 800 ms gate opens, and then sets the print time to now, leaves the copy index at 0, refreshes only copy slot 0 from the buffer as it is after sampling, and returns the median of that copy; otherwise the print time, copy index and copy are unchanged; while the copy's slots 1..29 are zero they stay zero and every value is 0 |
| TdsFilter.TdsPipeline.LoopFullCopy | backup/tds.cpp:69-115 | the tds.cpp `loop` keeps the same two arrays; it stores a reading and sets the sample time to now exactly when the 40 ms gate opens; when the 800 ms gate opens it sets the print time to now, leaves the copy index at 30 and the copy equal to the buffer, the c-th of its 30 printed medians is that of the copy refreshed through slot c from the buffer as it is after sampling, and the last one is that of the ring buffer over all readings stored so far; otherwise the print time, copy index and copy are unchanged |
| TdsFilter.RunEarlyReturn | backup/tds2.cpp:72-126 | calling `myTdsFuction` over and over from power-on, with any clock values and readings, every value it yields is 0 |

## Findings

| source | as written | input that shows it | evidently intended | confidence | as-written member | corrected member |
|---|---|---|---|---|---|---|
| src/main.cpp:138-158 (and backup/tds2.cpp:103-123) | `return tds_value;` sits inside the copy loop, so only slot 0 of `tds_buffer_temp` is ever copied and slots 1..29 stay 0; the median of that table is always 0 | thirty readings of 100 with both gates open: the buffer's median is 100, the reported median is 0 | copy all 30 slots, then take the median of the full copy, as backup/tds.cpp:93-113 does | high, not executed | TdsFilter.TdsPipeline.ComputeStepEarlyReturn (counterexample TdsFilter.EarlyReturnMissesBuffer) | TdsFilter.TdsPipeline.ComputeStepFullCopy |

Both forms are kept. `Update` models `myTdsFuction` as written. `LoopFullCopy`
uses the full copy, which the tds.cpp sketch runs, and its last median is
the median of the rolling buffer.

## Left out

- Floating point is left out: the pH voltage and calibration formula, the TDS voltage, the temperature compensation and the cubic TDS polynomial. The model stops at the integer that feeds them: `ph_avg_val` and the median.
- The conversion of the float result to the `int` that `myPhFuction` and `myTdsFuction` return is left out with the formulas. `TdsFilter.TdsPipeline.Update` returns the median itself.
- Serial output, `setup`, `pinMode` and the `loop` functions that only print are output plumbing and are not modelled.
- The temperature pipeline (`myTemperatureFuction`, backup/waterTemp.cpp) delegates to sensor libraries that are not part of this model.
- `analogRead`, `millis()` and `delay` are not modelled as hardware. A reading and a clock value `now` are parameters, and the 30 ms and 1000 ms delays have no effect on the integer logic.
- TdsFilter.TdsPipeline.SampleStep: the source calls `millis()` twice, once for the test (src/main.cpp:120) and once for the assignment (src/main.cpp:122). The model uses one value `now` for both, so the sample time it stores may be a millisecond or so earlier than the source's.
- TdsFilter.TdsPipeline.ComputeStepEarlyReturn: the same single clock value serves the test (src/main.cpp:135, backup/tds2.cpp:100) and the assignment `printTimepoint = millis()` (src/main.cpp:137, backup/tds2.cpp:102).
- TdsFilter.TdsPipeline.ComputeStepFullCopy: the same single clock value serves the test (backup/tds.cpp:90) and the assignment (backup/tds.cpp:92).
- TdsFilter.TdsPipeline.Update: both gates see the same clock value `now`, while the source reads the clock separately for each (src/main.cpp:120, 122, 135, 137), so the model does not capture time passing between the sample step and the compute step.
- TdsFilter.TdsPipeline.LoopFullCopy: both gates see the same clock value `now`, while the source reads the clock separately for each (backup/tds.cpp:75, 77, 90, 92).
- TdsFilter.RunEarlyReturn: each call sees one clock value, as in `Update`.
- TdsFilter.TdsPipeline.constructor: the statics `analogSampleTimepoint` and `printTimepoint` are initialised at the first call. The model takes that clock value as the constructor's `start`.
- Time is an integer in `[0, 2^32)` with the difference taken mod 2^32, not a 32-bit bit-vector. The arithmetic is the same.
- TdsFilter.TdsPipeline.Update: when the 800 ms gate is closed, `myTdsFuction` falls off its end without a return value, which is undefined behaviour in C++. The model returns `None`.
- MedianFilter.GetMedianNum: requires `iFilterLen <= 255`, because the copy loop counts with a `byte` that would wrap. It also requires `iFilterLen >= 1`, because a length of 0 reads outside the table. The wrap and the out-of-bounds read are not modelled.
- MedianFilter.GetMedianNum: samples are unbounded integers. A signed `int` overflow in `bTab[a] + bTab[b]` is not modelled; it cannot happen for ADC readings.
- PhFilter.PhSensor.ExchangeSort: the global swap variable `temp` is not modelled as state. Its final value is never read.
- The 32-bit width of the `int` buffers is not modelled. Readings from `analogRead` fit in 16 bits.
