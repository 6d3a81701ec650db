/** Choosing one or two presets from the two closest candidates. */
module PresetPairing {
  import opened RevGenTypes
  import opened RgHistogram

  /** The single-precision literals of the gate, as their exact values:
      `0.05f` and `0.4f`. */
  const TightMatch: real := 13421773.0 / 268435456.0
  const CloseSecond: real := 13421773.0 / 33554432.0

  /** The gate, on the candidates ordered closest first: a second preset is
      reported unless the closest match is tight and the second is not close. */
  predicate Blends(diffA: real, diffB: real)
  {
    Min(diffA, diffB) > TightMatch || Max(diffA, diffB) < CloseSecond
  }

  /** Swaps so that A is the closer candidate (only on a strict `diffB < diffA`),
      then reports B with the blend ratio `(total - diffA) / total` when the gate
      holds.  A zero total under the gate would divide by zero; it is excluded. */
  function CalculatePresetPair(indexA: SizeT, diffA: real, indexB: SizeT, diffB: real): (p: PresetPair)
    requires Blends(diffA, diffB) ==> diffA + diffB != 0.0
    ensures diffA <= diffB ==> p.presetIndexA == indexA
    ensures diffB < diffA ==> p.presetIndexA == indexB
    ensures !Blends(diffA, diffB) ==> p.presetIndexB == InvalidIndex && p.ratio == 1.0
    ensures Blends(diffA, diffB) ==> p.presetIndexB == (if diffB < diffA then indexA else indexB)
    ensures Blends(diffA, diffB) ==> p.ratio == Max(diffA, diffB) / (diffA + diffB)
  {
    var (iA, dA, iB, dB) := if diffB < diffA then (indexB, diffB, indexA, diffA) else (indexA, diffA, indexB, diffB);
    var pair := DefaultPresetPair.(presetIndexA := iA);
    if dA > TightMatch || dB < CloseSecond then
      var totalDiff := dA + dB;
      pair.(presetIndexB := iB, ratio := (totalDiff - dA) / totalDiff)
    else
      pair
  }

  /** With non-negative differences the primary's share lies in [0.5, 1]. */
  lemma PairRatioBounds(indexA: SizeT, diffA: real, indexB: SizeT, diffB: real)
    requires diffA >= 0.0 && diffB >= 0.0 && diffA + diffB > 0.0
    ensures 0.5 <= CalculatePresetPair(indexA, diffA, indexB, diffB).ratio <= 1.0
  {
    if Blends(diffA, diffB) {
      var total, hi := diffA + diffB, Max(diffA, diffB);
      RatioBounds(hi, total);
    }
  }

  lemma RatioBounds(hi: real, total: real)
    requires 0.0 < total && total / 2.0 <= hi <= total
    ensures 0.5 <= hi / total <= 1.0
  {
    DivMonotone(total / 2.0, hi, total);
    DivMonotone(hi, total, total);
  }

  lemma DivMonotone(x: real, y: real, t: real)
    requires t > 0.0 && x <= y
    ensures x / t <= y / t
  {
    var q := y / t - x / t;
    assert q * t == y - x;
  }

  /** The two candidates are unordered: exchanging them changes nothing unless
      their differences tie, where the first argument stays primary. */
  lemma PresetPairUnordered(indexA: SizeT, diffA: real, indexB: SizeT, diffB: real)
    requires Blends(diffA, diffB) ==> diffA + diffB != 0.0
    requires diffA != diffB
    ensures CalculatePresetPair(indexA, diffA, indexB, diffB) == CalculatePresetPair(indexB, diffB, indexA, diffA)
  {
    assert Blends(diffA, diffB) == Blends(diffB, diffA);
  }

  /** Two equally close candidates within the gate blend half and half. */
  lemma EqualCloseCandidatesBlendEvenly(i: SizeT, j: SizeT)
    ensures CalculatePresetPair(i, 0.01, j, 0.01) == PresetPair(i, j, 0.5)
  {
  }

  /** A tight closest match with a distant second reports the closest alone. */
  lemma TightMatchStandsAlone(i: SizeT, j: SizeT)
    ensures CalculatePresetPair(i, 0.5, j, 0.01) == PresetPair(j, InvalidIndex, 1.0)
  {
  }
}
