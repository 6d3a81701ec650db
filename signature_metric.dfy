/** The dissimilarity of two signatures: the mean of the differences of their
    distance histograms and of their absorption-coefficient histograms. */
module SignatureMetric {
  import opened RevGenTypes
  import opened RgHistogram

  function GetSignatureDifference(a: SignatureData, b: SignatureData): (r: real)
    ensures 0.0 <= r <= 1.0
  {
    var distDiff := HistogramDifference(a.distances, b.distances);
    var absCoeffDiff := HistogramDifference(a.absorbCoeffs, b.absorbCoeffs);
    (distDiff + absCoeffDiff) / 2.0
  }

  /** Both histograms agree; the preset index plays no part. */
  predicate SameHistograms(a: SignatureData, b: SignatureData)
  {
    a.distances == b.distances && a.absorbCoeffs == b.absorbCoeffs
  }

  lemma SignatureDifferenceSymmetric(a: SignatureData, b: SignatureData)
    ensures GetSignatureDifference(a, b) == GetSignatureDifference(b, a)
  {
    HistogramDifferenceSymmetric(a.distances, b.distances);
    HistogramDifferenceSymmetric(a.absorbCoeffs, b.absorbCoeffs);
  }

  /** The difference is zero exactly when both histogram pairs are identical. */
  lemma SignatureDifferenceZeroIff(a: SignatureData, b: SignatureData)
    ensures GetSignatureDifference(a, b) == 0.0 <==> SameHistograms(a, b)
  {
    HistogramDifferenceZeroIff(a.distances, b.distances);
    HistogramDifferenceZeroIff(a.absorbCoeffs, b.absorbCoeffs);
  }
}
