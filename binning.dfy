/** Binning raw distances into the normalised eleven-bin distance histogram.
    The bins are cumulative: there is no early exit, so a distance counts in
    every bin whose upper bound is at or above it. */
module DistanceBinning {
  import opened RevGenTypes
  import opened RgHistogram

  /** How many of the distances lie at or below `bound`. */
  function CountAtMost(ds: seq<FiniteFloat>, bound: real): (c: nat)
    ensures c <= |ds|
  {
    if |ds| == 0 then 0
    else CountAtMost(ds[..|ds| - 1], bound) + (if ds[|ds| - 1] <= bound then 1 else 0)
  }

  /** The raw bin counts before normalisation. */
  function BinCounts(ds: seq<FiniteFloat>): (h: seq<real>)
    ensures |h| == |DistanceBinValues|
  {
    seq(|DistanceBinValues|, i requires 0 <= i < |DistanceBinValues| => CountAtMost(ds, DistanceBinValues[i]) as real)
  }

  lemma {:induction false} CountAtMostMonotone(ds: seq<FiniteFloat>, lo: real, hi: real)
    requires lo <= hi
    ensures CountAtMost(ds, lo) <= CountAtMost(ds, hi)
  {
    if |ds| > 0 {
      CountAtMostMonotone(ds[..|ds| - 1], lo, hi);
    }
  }

  lemma {:induction false} CountAtMostEverything(ds: seq<FiniteFloat>, bound: real)
    requires bound >= FloatMax
    ensures CountAtMost(ds, bound) == |ds|
  {
    if |ds| > 0 {
      CountAtMostEverything(ds[..|ds| - 1], bound);
    }
  }

  /** Raw counts never decrease from bin to bin, and the last bin counts every
      (finite) distance. */
  lemma BinCountsCumulative(ds: seq<FiniteFloat>)
    ensures forall i, k :: 0 <= i <= k < |DistanceBinValues| ==> BinCounts(ds)[i] <= BinCounts(ds)[k]
    ensures BinCounts(ds)[|DistanceBinValues| - 1] == |ds| as real
  {
    DistanceBinValuesShape();
    forall i, k | 0 <= i <= k < |DistanceBinValues|
      ensures BinCounts(ds)[i] <= BinCounts(ds)[k]
    {
      CountAtMostMonotone(ds, DistanceBinValues[i], DistanceBinValues[k]);
    }
    CountAtMostEverything(ds, DistanceBinValues[|DistanceBinValues| - 1]);
  }

  lemma BinCountsTotalPositive(ds: seq<FiniteFloat>)
    requires |ds| > 0
    ensures Sum(BinCounts(ds)) > 0.0
  {
    BinCountsCumulative(ds);
    SumNonNegative(BinCounts(ds));
  }

  /** Counts every distance into every bin whose bound is at or above it, then
      normalises the counts in place.  With no distances the total would be
      zero and normalising would divide by it; that input is excluded. */
  method CreateHistogramFromDistances(distances: seq<FiniteFloat>) returns (r: DistArray)
    requires |distances| > 0
    ensures Sum(BinCounts(distances)) > 0.0
    ensures r == Normalized(BinCounts(distances))
    ensures Sum(r) == 1.0
    ensures forall i :: 0 <= i < |r| ==> 0.0 <= r[i] <= 1.0
  {
    var histogram := new real[|DistanceBinValues|](_ => 0.0);
    var k := 0;
    while k < |distances|
      invariant 0 <= k <= |distances|
      invariant forall b :: 0 <= b < histogram.Length ==> histogram[b] == CountAtMost(distances[..k], DistanceBinValues[b]) as real
    {
      var d := distances[k];
      assert distances[..k + 1][..k] == distances[..k];
      var i := 0;
      while i < |DistanceBinValues|
        invariant 0 <= i <= |DistanceBinValues|
        invariant forall b :: 0 <= b < i ==> histogram[b] == CountAtMost(distances[..k + 1], DistanceBinValues[b]) as real
        invariant forall b :: i <= b < histogram.Length ==> histogram[b] == CountAtMost(distances[..k], DistanceBinValues[b]) as real
      {
        if d <= DistanceBinValues[i] {
          histogram[i] := histogram[i] + 1.0;
        }
        i := i + 1;
      }
      k := k + 1;
    }
    assert distances[..k] == distances;
    assert histogram[..] == BinCounts(distances);
    NormalizedCounts(distances);
    NormalizeHistogram(histogram);
    r := histogram[..];
  }

  /** The normalised counts of a non-empty distance list form a distribution. */
  lemma NormalizedCounts(ds: seq<FiniteFloat>)
    requires |ds| > 0
    ensures Sum(BinCounts(ds)) > 0.0
    ensures Sum(Normalized(BinCounts(ds))) == 1.0
    ensures forall i :: 0 <= i < |DistanceBinValues| ==> 0.0 <= Normalized(BinCounts(ds))[i] <= 1.0
  {
    BinCountsTotalPositive(ds);
    NormalizedSumsToOne(BinCounts(ds));
    BinCountsCumulative(ds);
    NormalizedBounds(BinCounts(ds));
  }
}
