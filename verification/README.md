# lobSTR entropy-based repeat detector, modelled in Dafny

lobSTR locates short tandem repeats in reads. Before it calls alleles, it
refines the span of a candidate repeat from its reference flanking sequence.
The class `EntropyDetection` (src/EntropyDetection.cpp) does this refinement:

- it slides a window of `_window_size` bases along the sequence `_nucs` at
  stride `_window_step`;
- it scores each window by the Shannon entropy of its dinucleotides;
- it stores the scores in `_entropy_window`, writing 0 for any score above 0.8;
- `EntropyIsAboveThreshold` asks whether the largest score exceeds a
  threshold;
- `FindStartEnd` expands from the first maximum to the indices where the
  score falls below 0.8 times the maximum. It flags a scan that reaches an
  edge of the series.

The model has four modules:

- `DinucScore` (dinuc_score.dfy) defines the score of one window as a
  specification. It has the 44-slot pair-count table the pair loop builds,
  the number of pairs it counts, and the entropy sum. It also holds the
  lemmas about that score.
- `ScoreSeries` (score_series.dfy) defines the series of stored scores as a
  specification. Window k starts at offset k*step (`Offset`). Windows are
  produced while the offset is strictly below |nucs| - size. Scores above
  0.8 are clipped to 0.
- `Boundaries` (boundaries.dfy) has the first-maximum index
  (`std::max_element`) and the threshold test. Its predicate
  `ValidBoundaries` states the outcome of the two boundary scans.
- `EntropyDetection` (entropy_detection.dfy) is the class. Its fields mirror
  the C++ fields: `nucs`, `windowSize` and `windowStep` are set once by the
  constructor, and `entropyWindow` is rebuilt by `CalculateEntropyWindow`.
  Its four methods keep the C++ loops. `EntropyOneWindowDinuc` fills a
  44-element array in a pair loop, then accumulates the entropy in a second
  loop. `CalculateEntropyWindow` appends to the series in a strided loop.
  `FindStartEnd` walks `starti` down and `end` up, with `break` as in the
  source. Each method is proved against the specification functions above.

The mapping from nucleotide to number (`nucToNumber`) and the logarithm are
defined outside the modelled file. They are passed in as functions: `code`
and `log2`. The only facts about `log2` that are assumed are `log2(1.0) ==
0.0` and `log2(0.5) == -1.0`, and only by the lemmas that need them. The threshold `entropy_threshold`
is a global in the C++; here it is a parameter.

Six behaviours of the code differ from what a reader of the class would
expect. The model follows the code in each case:

- A window of L bases has L-1 adjacent pairs, but the loop runs
  `i < window_length - 2`. So only L-2 pairs are visited, and the final pair
  is never counted (`FinalBaseIgnored`).
- A window with no pair free of 'N' is not an error and is not skipped. The
  division is guarded by `if (count != 0)`, so the entropy stays 0 and the
  window scores exactly 1 (`NoPairsScoresOne`). The detector then stores it
  as 0, because 1 is above the 0.8 ceiling.
- The window loop bound `i < len - size` is strict. So the window that ends
  on the final base is never produced, even when it fits (`SeriesWindow`).
- The left and right scans of `FindStartEnd` share one flag,
  `*repetitive_end`. Either edge sets it, and nothing clears it.
- A strictly alternating window of even length at least 4, such as
  "ATATAT", fills two slots (AT and TA) equally. Its entropy is 1 bit, so it
  scores 0.75, which the clip keeps (`AlternatingScoresThreeQuarters`). The
  2-base window "AT" visits no pair and scores 1 (`NoPairsScoresOne`). Any window whose counted
  pairs all fall in one slot scores exactly 1: a run of one base, but also
  "ATA" or "AANAA" (`OneClassScoresOne`, `HomopolymerScoresOne`). The
  detector then stores 0 for it.
- The span returned by `FindStartEnd` can be inverted. For the series
  [1, 0] the maximum is at index 0. The left retreat moves start to 1, while
  the right scan stops at index 0, so start = 1 > end = 0 (`InvertedSpan`).

## Model

| member | source | states |
|---|---|---|
| `DinucScore.Slot` | src/EntropyDetection.cpp:39 | The slot `code1 + code2*10` of two base codes in 0..3 lies in 0..33, inside the 44-slot table. |
| `DinucScore.SlotDecodes` | src/EntropyDetection.cpp:39 | Both codes can be read back from the slot (`% 10` and `/ 10`), so the 16 dinucleotides never share a slot. |
| `DinucScore.PairCount` | src/EntropyDetection.cpp:34-41 | The number of pairs counted among the first n visited is at most n; over a window, at most L-2. |
| `DinucScore.CountTable` | src/EntropyDetection.cpp:33-42 | After n pairs the table has 44 entries. Each entry lies between 0 and the number of counted pairs. |
| `DinucScore.CountStep` | src/EntropyDetection.cpp:36-41 | A pair with 'N' in either position leaves the table and the count untouched. Any other pair has codes in 0..3 and adds one to its slot and one to `subseqs`. |
| `DinucScore.TableSumIsPairCount` | src/EntropyDetection.cpp:38-41 | After the pair loop, the table entries sum to `subseqs`. |
| `DinucScore.OnlyDinucleotideSlots` | src/EntropyDetection.cpp:33-39 | Only the 16 slots `a + 10*b` with a and b in 0..3 can hold a non-zero count. |
| `DinucScore.PairCountZero` | src/EntropyDetection.cpp:35-41 | No pair is counted exactly when every visited pair contains an 'N'. |
| `DinucScore.MinusPlogP` | src/EntropyDetection.cpp:17-19 | The contribution -1.0 * p * log2(p) of one outcome, with `log2` standing for log(x)/log(2): it is 0 where log2(p) = 0 (p = 1), never negative for p >= 0 with log2(p) <= 0, and positive for p > 0 with log2(p) < 0. |
| `DinucScore.EntropyOfEmptySlots` | src/EntropyDetection.cpp:44-50 | Empty slots add nothing to the entropy. |
| `DinucScore.NoPairsScoresOne` | src/EntropyDetection.cpp:43-51 | If no visited pair is free of 'N', the count is 0, no probability is computed (no division by zero), and the score is exactly 1. |
| `DinucScore.AllUnknownScoresOne` | src/EntropyDetection.cpp:38-51 | An all-'N' window scores exactly 1. |
| `DinucScore.OneSlotTable` | src/EntropyDetection.cpp:35-42 | If every counted pair falls in slot s, the table holds all counts in s and 0 elsewhere. |
| `DinucScore.EntropyOfOneSlot` | src/EntropyDetection.cpp:44-50 | The entropy of such a table is `MinusPlogP(1)` once slot s is passed (0 while no pair is counted). |
| `DinucScore.OneClassScoresOne` | src/EntropyDetection.cpp:43-51 | If every counted pair is one dinucleotide, that slot has p = 1 and contributes -1*log2(1) = 0, so the score is exactly 1. |
| `DinucScore.HomopolymerScoresOne` | src/EntropyDetection.cpp:35-51 | A window that repeats one base other than 'N' scores exactly 1. |
| `DinucScore.EntropyOfTwoSlots` | src/EntropyDetection.cpp:44-50 | The entropy of a table whose only two non-empty slots each hold half of the counted pairs is `MinusPlogP(0.5)` for each of the two slots passed. |
| `DinucScore.AlternatingTable` | src/EntropyDetection.cpp:35-42 | In a window alternating two distinct bases other than 'N', after 2m visited pairs every pair is counted. The table holds m in the slot of xy, m in the slot of yx, and 0 elsewhere. |
| `DinucScore.AlternatingScoresThreeQuarters` | src/EntropyDetection.cpp:35-51 | An even-length window of at least 4 bases alternating two distinct bases other than 'N' scores exactly 0.75, when log2(0.5) = -1. |
| `DinucScore.CountsDependOnPrefix` | src/EntropyDetection.cpp:35-42 | The table and count after n pairs depend only on the first n+1 bases. |
| `DinucScore.FinalBaseIgnored` | src/EntropyDetection.cpp:35-37 | The last pair is never visited: replacing a window's last base never changes its score. |
| `ScoreSeries.Clip` | src/EntropyDetection.cpp:60-61 | A stored value never exceeds 0.8. A score of at most 0.8 is kept, and a larger one becomes 0. |
| `ScoreSeries.OffsetIsMultiple` | src/EntropyDetection.cpp:57 | The offset reached by adding the step k times is k*step. |
| `ScoreSeries.WindowsFromAt` | src/EntropyDetection.cpp:57 | Counting from window k, the loop produces more than j further windows exactly when the offset of window k+j is below \|nucs\| - size. |
| `ScoreSeries.SeriesExtends` | src/EntropyDetection.cpp:57-62 | For a produced window k, the window fits with at least two bases and codes in range. The first k+1 stored values are the first k followed by the clipped score of window k, which is one step of the loop's `push_back`. |
| `ScoreSeries.SeriesWindow` | src/EntropyDetection.cpp:57-62 | Window k is stored exactly when k*step < \|nucs\| - size. It is the length-size substring at that offset and ends strictly before the last base. Its value is its clipped score. |
| `ScoreSeries.SeriesLength` | src/EntropyDetection.cpp:55-57 | The series has ceil((\|nucs\| - size) / step) entries, one per such offset. It is non-empty exactly when \|nucs\| > size. |
| `ScoreSeries.SeriesBelowCeiling` | src/EntropyDetection.cpp:59-62 | No stored value exceeds 0.8. |
| `Boundaries.MaxElementIndex` | src/EntropyDetection.cpp:77-79 | The index holds a value at least every other value, and every earlier index holds a strictly smaller one: it is the first index of the maximum. |
| `Boundaries.ThresholdTest` | src/EntropyDetection.cpp:71-72 | The maximum exceeds t exactly when some value does. The test is monotone: if it passes a threshold, it passes any lower one. |
| `Boundaries.BoundariesDetermined` | src/EntropyDetection.cpp:82-100 | The scan outcome is unique for a given series and incoming flag. `start` is at least 1, `end` is at most \|s\|-2, and a set flag stays set. |
| `Boundaries.MaxAtEdgeFlagged` | src/EntropyDetection.cpp:83-99 | A maximum at index 0 forces start = 1 and sets the flag. A maximum at the last index forces end = \|s\|-2 and sets the flag. |
| `Boundaries.InvertedSpan` | src/EntropyDetection.cpp:83-100 | For the series [1, 0] the result is start = 1 and end = 0: the retreat at the left edge can put start past end. |
| `EntropyDetection.EntropyDetection.constructor` | src/EntropyDetection.cpp:22-27 | Stores the sequence, window size and step. The series starts empty. |
| `EntropyDetection.EntropyDetection.EntropyOneWindowDinuc` | src/EntropyDetection.cpp:31-52 | The two loops return exactly `WindowScore`: (4 - H)/4, where H sums -p*log2(p) over the non-empty slots of the pair table. |
| `EntropyDetection.EntropyDetection.CalculateEntropyWindow` | src/EntropyDetection.cpp:54-64 | The series is rebuilt from empty, whatever it held before, and equals `Series` of the configuration. |
| `EntropyDetection.EntropyDetection.EntropyIsAboveThreshold` | src/EntropyDetection.cpp:66-73 | Rebuilds the series. Returns true iff its maximum is strictly greater than the threshold. |
| `EntropyDetection.EntropyDetection.FindStartEnd` | src/EntropyDetection.cpp:75-101 | From the first maximum i, the outputs satisfy `ValidBoundaries`. If the left scan runs off index 0, start = 1. Otherwise start - 1 is the nearest index left of i below 0.8*max. Symmetrically, end = \|s\|-2 or end + 1 is the nearest index right of i below the cutoff. Every index from start through end holds at least the cutoff. The flag is the incoming flag, set if either scan ran off an edge. |
| `EntropyDetection.CeilingSilencesDetector` | src/EntropyDetection.cpp:59-72 | Because stored values are clipped at 0.8, a threshold of 0.8 or more is never exceeded. |

## Left out

- `nucToNumber` is not part of this model. It is the parameter `code`. Every
  counted pair of every scored window must map to codes in 0..3. For other
  codes the C++ does one of two things, and the model covers neither:
  - the slot lands inside the 44-entry table but outside the 16 dinucleotide
    slots (codes 4 and 0 give slot 4), and the count goes into that slot;
  - the slot lies outside the table (two codes 4 give slot 44), and
    `kmer_counts[...]` writes out of range, which is undefined.
- `log` is not part of this model. `log(x)/log(2)` is the parameter `log2`.
  No numeric score is proved beyond the p = 1 and empty-table cases and the
  alternating windows of even length at least 4. No score is proved for a
  window whose 16 dinucleotides are equally frequent (the real logarithm
  gives 0), nor for any other mix of counts. Those need `log2` at other
  points.
- `DinucScore.AlternatingScoresThreeQuarters`: only even lengths of at least
  4 are covered.
  An odd-length alternating window of 2k+3 bases counts one of the two pairs
  k+1 times and the other k times. Its score needs `log2` at (k+1)/(2k+1)
  and k/(2k+1).
- IEEE floating point: `float subseqs`, `float p`, `float entropy`, the
  narrowing of `max_entropy` to `float` and the double literal 0.8 are all
  `real`. Rounding is not modelled.
- The debug print of the maximum (src/EntropyDetection.cpp:68-70) and
  `why_not_debug` are left out.
- Inputs for which the C++ is undefined, throws, never ends, or takes a path
  the model does not follow. They are preconditions of the model:
  - a window shorter than 2 bases: `window_length - 2` wraps to nearly
    2^64, so the pair loop runs past the window and `at` throws
    `std::out_of_range`;
  - a window size larger than |nucs|: `_nucs.length() - _window_size` wraps
    to nearly 2^64, so the window loop runs past the end of the sequence.
    Every window is the rest of the sequence from i, fewer than size bases
    from the first one on, so the windows shrink as i advances. Then `at`
    throws `std::out_of_range` once a window is shorter than 2 bases, or
    `substr` throws it if the step jumps past |nucs|;
  - a negative window size: it is converted to `size_t`, so
    `_nucs.length() - _window_size` is |nucs| + |size|. The window loop again
    runs past the end, and `substr` or `at` throws `std::out_of_range`;
  - a step of 0: i never advances, and the window loop appends to the series
    without end;
  - a negative step: `i += _window_step` converts it to `size_t`. After the
    first window, i wraps to 2^64 - |step|, the loop test fails, and the series
    holds exactly one value. This is defined behaviour, but the model does
    not cover it;
  - an empty series: `max_element` returns the end iterator, and reading it
    is undefined;
  - a series of one value with a maximum of at least 0: the right scan stops
    at index 1, and `end -= 1` then wraps `end` to 2^64 - 1;
  - a negative maximum: the maximum itself is below 0.8 times the maximum,
    so both scans stop at once. The C++ returns start = i+1 and end = i-1 and
    leaves the flag alone; for i = 0, `end` wraps to 2^64 - 1. This is
    defined behaviour, but the model does not cover it. A series built by
    `CalculateEntropyWindow` has no negative value when log2 is the real
    logarithm: at most 16 slots are filled, so the entropy is at most 4 bits.
    The model does not assume enough about `log2` to prove that.
- The overflow of `size_t i += _window_step` near 2^64 is not modelled.
- `EntropyDetection.EntropyDetection.FindStartEnd`: the caller's
  `bool* repetitive_end` is modelled as an incoming flag and a returned
  flag, so aliasing through the pointer is not modelled.
- src/main_allelotype.cpp: command-line parsing, the embedded R interpreter
  and the orchestration of the noise model and genotyper are process
  plumbing and foreign calls.
- src/ReadContainer.h: declarations only; the read parsing and alignment
  code behind them is not part of this model. The per-locus read
  aggregation, sample registry and duplicate removal are therefore not
  modelled either.
