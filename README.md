# ReverbGen core in Dafny

ReverbGen chooses a reverb preset for a listener position. It describes a
position by a *signature*: an 11-bin histogram of ray distances and a 10-bin
histogram of absorption coefficients, tagged with the index of the preset it
was recorded for. This project models the numerical and combinatorial core of
the library and proves properties of it:

- the histogram engine: in-place normalisation and the single-pass
  accumulation difference between two histograms;
- the signature metric, which is the mean of the two histogram differences;
- the signature reduction pipeline:
  - a greedy threshold dedup that keeps the order;
  - a size reduction that keeps the signatures with the largest "earlier
    peak" difference;
  - the per-preset cap of five signatures;
- preset pairing (swap, gate and blend ratio), cumulative distance binning,
  and the reciprocal-direction scan;
- the data model: vectors, the bin bounds, preset pairs, signatures and their
  default values.

Single-precision `float` values are modelled as `real`. The float literals
keep their exact binary values: `0.02f` is 5368709/2^28, `0.05f` is
13421773/2^28, `0.4f` is 13421773/2^25, and the float maximum is written out
in full. So a comparison against a constant decides the same way as in the
float code. `size_t` is an integer below 2^64, and `InvalidIndex` is 2^64-1.

The modules follow the source:
- `RevGenTypes` (types.dfy) covers Source/ReverbGen.h.
- `RgHistogram` (histogram.dfy) covers Source/RgHistogram.h.
- `HistogramCases` (histogram_cases.dfy) covers Test/TestHistogram.cpp.
- The rest cover Source/ReverbGen.cpp:
  - `PresetPairing` (pairing.dfy);
  - `DistanceBinning` (binning.dfy);
  - `SignatureMetric` (signature_metric.dfy);
  - `SignatureReduction` (reduction.dfy);
  - `Reciprocals` (reciprocals.dfy).

The functions and methods are written in the same form as the source:
- Loops that update variables or arrays become methods with loop invariants:
  - `NormalizeHistogram` and `GetHistogramDifference`;
  - `CreateHistogramFromDistances`;
  - the three reduction functions;
  - `GetReciprocals`.
- Each of those methods is proved against a specification function or
  predicate. The lemmas then prove properties of that function.
- Expression-level code becomes functions: `CalculatePresetPair`,
  `GetSignatureDifference` and `DotProduct`.
- `GetReciprocals` also returns the chosen index for each direction (the
  source's `bestIndex`). `ReduceSignaturesBySize` also returns the chosen
  positions in order (the source's `indices`, as a sequence). The contracts
  are stated through these indices.

Where the code's behaviour differs from what its names and comments suggest (for example the work-scale comment at Source/RgHistogram.h:31-32), the model follows the code:

- **Not an earth mover's distance.** The histogram difference uses `|h1[i] - h2[i]|`, which discards the sign. So it is not the 1-D earth mover's (Wasserstein) distance in general. `HistogramCases.NotEarthMoverDistance` gives two histograms where the difference is 0.5 but the transport cost is 2.5/3.
- **Ties in pairing.** `CalculatePresetPair` swaps only on a strict `diffB < diffA`. On a tie the first index stays primary.
- **Cumulative bins.** Distance binning has no early exit. A distance is counted in every bin whose bound is at or above it, so the bins are cumulative.
- **Reciprocal falls back to direction 0.** `GetReciprocals` starts from index 0 with a best dot product of 1. When no other direction has a dot product below 1, the answer is direction 0, which can be the direction itself.

## Model

| member | source | states |
|---|---|---|
| RevGenTypes.Vec3.Set | Source/ReverbGen.h:20 | the result has exactly the three given components |
| RevGenTypes.Vec3.Neg | Source/ReverbGen.h:21 | unary minus negates each component |
| RevGenTypes.DotProduct | Source/ReverbGen.h:27-30 | a vector with itself never scores below 0, and the zero vector scores 0 against any vector |
| RevGenTypes.DotProductSymmetric | Source/ReverbGen.h:27-30 | the dot product is symmetric |
| RevGenTypes.DotProductNegLeft | Source/ReverbGen.h:21-30 | negating the left operand negates the dot product |
| RevGenTypes.DistanceBinValuesShape | Source/ReverbGen.h:33-46 | there are exactly 11 bin bounds, strictly increasing, and the last is the float maximum |
| RevGenTypes.FiniteDistanceInLastBin | Source/ReverbGen.h:45 | every finite distance is at or below the last bin bound |
| RevGenTypes.DefaultsAsDeclared | Source/ReverbGen.h:18-65 | a default preset pair is (0, InvalidIndex, 1.0); a default signature has no preset and all-zero arrays of length 11 and 10; a default vector is zero |
| RgHistogram.NormalizeHistogram | Source/RgHistogram.h:10-18 | with a non-zero total, every entry is replaced by itself divided by the total, in place; the length is unchanged |
| RgHistogram.NormalizedSumsToOne | Source/RgHistogram.h:10-18 | the normalised entries sum to 1 |
| RgHistogram.NormalizedBounds | Source/RgHistogram.h:10-18 | normalising non-negative entries puts each one in [0, 1] |
| RgHistogram.SumDividedBy | Source/RgHistogram.h:16-17 | dividing every entry by t divides the sum by t |
| RgHistogram.SumNonNegative | Source/RgHistogram.h:13-15 | the total of non-negative entries is non-negative and bounds each entry |
| RgHistogram.CarryNonNegative | Source/RgHistogram.h:29-51 | the accumulation and the running difference never go negative |
| RgHistogram.HistogramDifference | Source/RgHistogram.h:20-54 | the difference lies in [0, 1] |
| RgHistogram.ReductionLeavesDistance | Source/RgHistogram.h:42-47 | one step (reduce by the minimum, then carry the leftover delta) leaves the absolute gap between the accumulation and the delta |
| RgHistogram.ScaledCarrySumFactors | Source/RgHistogram.h:33-51 | adding accumulation times the work scale bin by bin gives the total accumulation times the work scale |
| RgHistogram.GetHistogramDifference | Source/RgHistogram.h:20-54 | for equal lengths of at least 2, the loop with min, subtract and carry returns the specified difference, clamped to 1 |
| RgHistogram.CarrySymmetric | Source/RgHistogram.h:37 | the accumulation and its running sum do not change when h1 and h2 are swapped |
| RgHistogram.HistogramDifferenceSymmetric | Source/RgHistogram.h:37 | the difference is symmetric in its two histograms |
| RgHistogram.CarryZeroWhileEqual | Source/RgHistogram.h:37-51 | while the bins agree, the accumulation and the difference stay 0 |
| RgHistogram.CarrySumAtLeast | Source/RgHistogram.h:47-51 | the running difference is at least any accumulation seen so far |
| RgHistogram.HistogramDifferenceZeroIff | Source/RgHistogram.h:20-54 | the difference is 0 exactly when the histograms are equal |
| RgHistogram.CarryTwoBins | Source/RgHistogram.h:34-52 | when the histograms differ by m in only two bins a < b, the accumulation is m between them and 0 elsewhere, and the running difference grows linearly |
| RgHistogram.TwoBinDifference | Source/RgHistogram.h:20-54 | a mass m moved from bin a to bin b gives min((b-a)·m/(N-1), 1) |
| HistogramCases.EqualHistogramsDiffZero | Test/TestHistogram.cpp:16-23 | equal histograms give 0 |
| HistogramCases.FirstVersusLastBin | Test/TestHistogram.cpp:25-32 | unit mass in the first bin against the last bin, over 11 bins, gives 1 |
| HistogramCases.FirstSingleColumnShift | Test/TestHistogram.cpp:34-41 | a one-bin shift from the first bin gives 0.1 |
| HistogramCases.LastSingleColumnShift | Test/TestHistogram.cpp:43-50 | a one-bin shift at the last bin gives 0.1 |
| HistogramCases.ColumnShiftByFive | Test/TestHistogram.cpp:52-59 | a five-bin shift gives 0.5 |
| HistogramCases.HalfColumnShiftByFive | Test/TestHistogram.cpp:61-68 | moving half the mass five bins gives 0.25 |
| HistogramCases.SmallMaxDifference | Test/TestHistogram.cpp:70-77 | first bin against last bin over 3 bins gives 1 |
| HistogramCases.NotEarthMoverDistance | Source/RgHistogram.h:37 | on one concrete pair the difference (0.5) differs from the normalised transport cost (2.5/3) |
| PresetPairing.CalculatePresetPair | Source/ReverbGen.cpp:12-28 | A is the index with the strictly smaller diff, and the first index on a tie. B and ratio = larger diff / total are set only when the gate (closer diff > 0.05 or farther diff < 0.4) holds; otherwise B is InvalidIndex and ratio is 1 |
| PresetPairing.PairRatioBounds | Source/ReverbGen.cpp:21-26 | for non-negative diffs with a positive total, the ratio lies in [0.5, 1] |
| PresetPairing.PresetPairUnordered | Source/ReverbGen.cpp:14-18 | with distinct diffs, swapping the two candidates gives the same pair |
| PresetPairing.EqualCloseCandidatesBlendEvenly | Source/ReverbGen.cpp:21-26 | two equal close candidates blend 50/50 |
| PresetPairing.TightMatchStandsAlone | Source/ReverbGen.cpp:14-26 | a tight closest match with a distant second gives a single preset and ratio 1 |
| DistanceBinning.CountAtMost | Source/ReverbGen.cpp:33-39 | a bin's count is at most the number of distances |
| DistanceBinning.BinCounts | Source/ReverbGen.cpp:32-40 | there is one raw count per bin bound |
| DistanceBinning.CountAtMostMonotone | Source/ReverbGen.cpp:37 | a larger bound counts at least as many distances |
| DistanceBinning.CountAtMostEverything | Source/ReverbGen.cpp:37 | the float-maximum bound counts every finite distance |
| DistanceBinning.BinCountsCumulative | Source/ReverbGen.cpp:33-40 | raw counts never decrease from bin to bin, and the last bin counts every distance |
| DistanceBinning.BinCountsTotalPositive | Source/ReverbGen.cpp:33-41 | a non-empty input gives a positive total |
| DistanceBinning.CreateHistogramFromDistances | Source/ReverbGen.cpp:30-43 | the nested loops produce the normalised cumulative counts; these sum to 1 and each lies in [0, 1] |
| DistanceBinning.NormalizedCounts | Source/ReverbGen.cpp:41 | the normalised counts of a non-empty input form a distribution |
| SignatureMetric.GetSignatureDifference | Source/ReverbGen.cpp:45-50 | the metric lies in [0, 1] |
| SignatureMetric.SignatureDifferenceSymmetric | Source/ReverbGen.cpp:45-50 | the metric is symmetric |
| SignatureMetric.SignatureDifferenceZeroIff | Source/ReverbGen.cpp:45-50 | the metric is 0 exactly when both array pairs are equal |
| SignatureReduction.ClearOfStep | Source/ReverbGen.cpp:64-70 | a later signature stays clear of one more earlier survivor exactly when their difference reaches the threshold |
| SignatureReduction.SurvivorsSubsequence | Source/ReverbGen.cpp:73-76 | the kept prefix is the survivors, in their original order |
| SignatureReduction.DedupSubsequence | Source/ReverbGen.cpp:52-80 | the dedup output is an order-preserving subsequence of the input, with no InvalidIndex entries |
| SignatureReduction.DedupSeparated | Source/ReverbGen.cpp:60-71 | any two outputs differ by at least the threshold |
| SignatureReduction.DedupDropsOnlyNearDuplicates | Source/ReverbGen.cpp:62-70 | a valid input is dropped only if an earlier output lies closer than the threshold |
| SignatureReduction.DedupKeepsFirstValid | Source/ReverbGen.cpp:60-71 | the first valid input is always the first output |
| SignatureReduction.ReduceSignaturesByDifference | Source/ReverbGen.cpp:52-80 | the marking loops followed by the erase return the dedup of the input |
| SignatureReduction.MarkNearDuplicates | Source/ReverbGen.cpp:64-70 | once the pass for survivor j is done, every entry is the input entry or the input entry marked InvalidIndex. Up to j, exactly the survivors are unmarked; after j, exactly those clear of every survivor up to j are unmarked |
| SignatureReduction.PeakUpToBounds | Source/ReverbGen.cpp:90-98 | the peak over the first k earlier signatures bounds each of their differences and is attained by one of them |
| SignatureReduction.EarlierPeakBounds | Source/ReverbGen.cpp:90-98 | signature i's peak bounds its difference to every earlier signature and is attained by one of them |
| SignatureReduction.InsertByDiff | Source/ReverbGen.cpp:101-105 | insertion adds exactly one candidate |
| SignatureReduction.InsertKeepsDescending | Source/ReverbGen.cpp:101-105 | insertion keeps the order descending by difference |
| SignatureReduction.SortByDiff | Source/ReverbGen.cpp:101-105 | the sort result is a permutation, in descending order of difference |
| SignatureReduction.UnseenRemains | Source/ReverbGen.cpp:112-119 | while fewer than n-1 indices are chosen, the scan has not run past the sorted pairs |
| SignatureReduction.ReduceSignaturesBySize | Source/ReverbGen.cpp:82-123 | for size <= n-1, it returns exactly `size` signatures from distinct positions in 1..n-1, in non-increasing order of earlier peak; every chosen position's peak is at least that of every unchosen position |
| SignatureReduction.CollectCandidates | Source/ReverbGen.cpp:88-99 | every pair (i, diff) comes from some j < i, and every pair j < i is recorded |
| SignatureReduction.SortedRecords | Source/ReverbGen.cpp:88-105 | the sorted pairs are descending; each is at most its index's peak, and each index's peak occurs among them |
| SignatureReduction.SelectionStep | Source/ReverbGen.cpp:112-119 | while under size, the next pair exists and names a position in 1..n-1; pushing a first sighting or skipping a repeat keeps the selection invariant |
| SignatureReduction.SelectionPick | Source/ReverbGen.cpp:114-118 | pushing a first-seen index keeps the selection invariant |
| SignatureReduction.SelectionSkip | Source/ReverbGen.cpp:114-119 | skipping an index already chosen keeps the selection invariant |
| SignatureReduction.SelectionDominates | Source/ReverbGen.cpp:107-120 | the chosen positions are distinct and in non-increasing peak order, and each dominates every unchosen one |
| SignatureReduction.SelectFirstSightings | Source/ReverbGen.cpp:107-122 | the while loop over the sorted pairs returns exactly `size` distinct first-seen positions, in peak order, each dominating the unchosen |
| SignatureReduction.PickedFromStep | Source/ReverbGen.cpp:116-117 | the pushed signature and the inserted index stay in step |
| SignatureReduction.PeakOrderedStep | Source/ReverbGen.cpp:116 | a pick whose peak does not exceed the last pick's keeps the output in descending peak order |
| SignatureReduction.FirstSightIsPeak | Source/ReverbGen.cpp:114 | an index's first sighting in the sorted pairs carries its peak, and it is at least every later pair |
| SignatureReduction.OfPresetMembers | Source/ReverbGen.cpp:137-139 | a preset's group is no longer than the input and holds only that preset's signatures |
| SignatureReduction.OfPresetAppend | Source/ReverbGen.cpp:153 | grouping commutes with concatenation |
| SignatureReduction.OfPresetUniform | Source/ReverbGen.cpp:153 | a single-preset block contributes only to its own preset |
| SignatureReduction.OutsideSplit | Source/ReverbGen.cpp:144-154 | moving one preset into the handled set removes exactly that preset's signatures from the rest |
| SignatureReduction.OutsideNothing | Source/ReverbGen.cpp:137-140 | before any preset is handled, every signature is outside |
| SignatureReduction.GatherStep | Source/ReverbGen.cpp:144-154 | appending one preset's reduced group keeps the gathering invariant |
| SignatureReduction.GatherUntouched | Source/ReverbGen.cpp:153 | presets not yet handled have no output |
| SignatureReduction.GatherHandled | Source/ReverbGen.cpp:148-153 | each handled preset's output stays its group. When the group is larger than 5, the output is 5 of its members, none kept more often than it occurs in the group |
| SignatureReduction.HandledAppended | Source/ReverbGen.cpp:153 | appending preset p's block, when p has no output yet, makes the block p's output |
| SignatureReduction.HandledKept | Source/ReverbGen.cpp:153 | appending preset p's block leaves the output of every handled preset unchanged |
| SignatureReduction.GatherWithin | Source/ReverbGen.cpp:153 | the output stays drawn from the dedup survivors |
| SignatureReduction.GroupMembers | Source/ReverbGen.cpp:146-150 | a reduced group is no longer than the group and holds only members of preset p |
| SignatureReduction.AppendGroupAt | Source/ReverbGen.cpp:153 | appending preset p's block changes only p's output |
| SignatureReduction.ReduceSignatures | Source/ReverbGen.cpp:125-157 | output size is at most input size, and every output has a valid preset and comes from the input. Each preset gets min(its dedup survivor count, 5) outputs. Groups of at most 5 are kept whole and in order. A larger group yields a sub-multiset of its survivors, so no survivor is kept twice unless it occurs twice |
| SignatureReduction.GroupByPreset | Source/ReverbGen.cpp:137-139 | the map sends each preset to its survivors, in order, and holds no other preset |
| SignatureReduction.CapGroup | Source/ReverbGen.cpp:148-150 | a group of at most 5 is kept whole. A larger one is cut by the size reduction to 5 of its members, taken from distinct positions, so the result is a sub-multiset of the group |
| SignatureReduction.DistinctPicksSubMultiset | Source/ReverbGen.cpp:110-118 | signatures taken from distinct positions, as the `indices` set ensures, form a sub-multiset of the input |
| SignatureReduction.GatherGroups | Source/ReverbGen.cpp:144-154 | visiting the map's groups in any order and appending each capped group gives every preset its capped group; the output is drawn from the survivors and is no longer than they are |
| SignatureReduction.GatheredComplete | Source/ReverbGen.cpp:144-154 | once every preset with survivors is handled, every preset's output is its capped group |
| SignatureReduction.CappedAll | Source/ReverbGen.cpp:125-157 | capped dedup survivors meet the per-preset promise of the method, sub-multiset part included |
| Reciprocals.ReciprocalIndexUnique | Source/ReverbGen.cpp:163-177 | the scan's answer is uniquely determined |
| Reciprocals.ReciprocalIsAnotherDirection | Source/ReverbGen.cpp:165-176 | when some other direction has a dot product below 1, the answer is another direction, and its dot product is below 1 |
| Reciprocals.FirstDirectionCanBeItsOwnReciprocal | Source/ReverbGen.cpp:165-166 | with two parallel directions, direction 0's reciprocal is itself |
| Reciprocals.GetReciprocals | Source/ReverbGen.cpp:159-181 | one output per direction. Each output is the first other direction with the smallest dot product when that product is below 1, and direction 0 otherwise |

## Left out

- `GetDistanceWeight` and `GetReverseDistanceWeight` (Source/ReverbGen.cpp:183-191) are left out: they are `log` and `pow` on floats, which have no exact counterpart over `real`.
- IEEE single-precision rounding, infinities and NaN are not modelled. Arithmetic is exact over `real`.
- The source lets degenerate inputs produce infinity or NaN. The model excludes them with preconditions instead:
  - a zero histogram total in `NormalizeHistogram`;
  - a histogram of length below 2 in `GetHistogramDifference`. At length 1 the work scale divides by zero. At length 0, `size() - 1` wraps around to 2^64-1, the loop does not run, and the source returns 0; the model does not cover that case. Every caller passes 11 or 10 bins;
  - an empty distance list in `CreateHistogramFromDistances`;
  - a zero `diffA + diffB` under the gate in `CalculatePresetPair`.
- The source asserts equal histogram lengths. The model states it as a precondition.
- ReduceSignaturesBySize: the source reads past the end of the sorted pairs when `size` is at least the number of signatures. That is undefined behaviour, and the model excludes it with a precondition.
- ReduceSignatures: the iteration order of the preset map is unspecified, so the model picks the next preset nondeterministically. The contract is therefore stated per preset, not for the order of the output.
- ReduceSignatures: for a preset with more than five survivors, its contract says only that five of its survivors are kept, as a sub-multiset of the group. Which five is stated by `ReduceSignaturesBySize`, which the method calls on the group.
- ReduceSignaturesBySize: `std::sort` is not stable. The model uses one descending order, and the contracts use only facts that hold for every descending permutation. Which of several tied signatures is chosen is therefore not stated.
- Reciprocals: no lemma relates dot products of unit vectors, for example that distinct unit vectors have a dot product below 1. The model does not use the unit-length assumption.
- The random signature generation (Test/TestSignatures.cpp:16-53) and the Catch unit-test framework are not modelled. Only the size bound of line 66 is stated, in `ReduceSignatures`.
- Source/RgInternal.h holds only standard-library includes and is not part of this model.
