/** The histogram engine: normalising a bin array in place, and the
    accumulation pass that measures how far apart two histograms are.

    The difference pass keeps an `accumulation` of unmatched mass.  At bin i it
    takes `delta = |h1[i] - h2[i]|`, cancels `min(delta, accumulation)` from both,
    and carries what is left, so the new accumulation is exactly
    `|accumulation - delta|` (`Carry` below).  Each bin then adds the carried
    mass times `1 / (N - 1)`, and the total is clamped to 1. */
module RgHistogram {

  function Abs(x: real): real
  {
    if x < 0.0 then -x else x
  }

  /** `std::min(a, b)`: `a` unless `b < a`. */
  function Min(a: real, b: real): real
  {
    if b < a then b else a
  }

  /** `std::max(a, b)`: `a` unless `a < b`. */
  function Max(a: real, b: real): real
  {
    if a < b then b else a
  }

  /** The left-to-right sum of the entries. */
  function Sum(s: seq<real>): real
  {
    if |s| == 0 then 0.0 else Sum(s[..|s| - 1]) + s[|s| - 1]
  }

  /** Every entry divided by the total. */
  function Normalized(s: seq<real>): (r: seq<real>)
    requires Sum(s) != 0.0
    ensures |r| == |s|
  {
    DividedBy(s, Sum(s))
  }

  function DividedBy(s: seq<real>, t: real): (r: seq<real>)
    requires t != 0.0
    ensures |r| == |s|
  {
    seq(|s|, i requires 0 <= i < |s| => s[i] / t)
  }

  lemma {:induction false} SumDividedBy(s: seq<real>, t: real)
    requires t != 0.0
    ensures Sum(DividedBy(s, t)) == Sum(s) / t
  {
    if |s| > 0 {
      var init := s[..|s| - 1];
      assert DividedBy(s, t)[..|s| - 1] == DividedBy(init, t);
      SumDividedBy(init, t);
      DivisionAdds(Sum(init), s[|s| - 1], t);
    }
  }

  lemma DivisionAdds(a: real, b: real, t: real)
    requires t != 0.0
    ensures a / t + b / t == (a + b) / t
  {
  }

  /** A normalised histogram sums to exactly 1. */
  lemma NormalizedSumsToOne(s: seq<real>)
    requires Sum(s) != 0.0
    ensures Sum(Normalized(s)) == 1.0
  {
    var t := Sum(s);
    SumDividedBy(s, t);
    assert t / t == 1.0;
  }

  lemma {:induction false} SumNonNegative(s: seq<real>)
    requires forall i :: 0 <= i < |s| ==> s[i] >= 0.0
    ensures Sum(s) >= 0.0
    ensures forall i :: 0 <= i < |s| ==> s[i] <= Sum(s)
  {
    if |s| > 0 {
      SumNonNegative(s[..|s| - 1]);
    }
  }

  /** Normalising a histogram of non-negative counts with a positive total
      gives non-negative entries, none above 1. */
  lemma NormalizedBounds(s: seq<real>)
    requires forall i :: 0 <= i < |s| ==> s[i] >= 0.0
    requires Sum(s) != 0.0
    ensures forall i :: 0 <= i < |s| ==> 0.0 <= Normalized(s)[i] <= 1.0
  {
    SumNonNegative(s);
    forall i | 0 <= i < |s| ensures 0.0 <= Normalized(s)[i] <= 1.0 {
      FractionWithinOne(s[i], Sum(s));
    }
  }

  lemma FractionWithinOne(x: real, t: real)
    requires 0.0 <= x <= t && t != 0.0
    ensures 0.0 <= x / t <= 1.0
  {
    assert x / t * t == x;
  }

  /** Sums the bins, then divides every bin by the total, in place.  A zero
      total would fill the histogram with non-finite values; it is excluded. */
  method NormalizeHistogram(h: array<real>)
    requires Sum(h[..]) != 0.0
    modifies h
    ensures h[..] == Normalized(old(h[..]))
  {
    var total := 0.0;
    var i := 0;
    while i < h.Length
      invariant 0 <= i <= h.Length
      invariant total == Sum(h[..i])
    {
      assert h[..i + 1][..i] == h[..i];
      total := total + h[i];
      i := i + 1;
    }
    assert h[..h.Length] == h[..];
    ghost var before := h[..];
    i := 0;
    while i < h.Length
      invariant 0 <= i <= h.Length
      invariant forall k :: 0 <= k < i ==> h[k] == before[k] / total
      invariant forall k :: i <= k < h.Length ==> h[k] == before[k]
    {
      h[i] := h[i] / total;
      i := i + 1;
    }
  }

  /** The mass carried past the first `k` bins. */
  function Carry(h1: seq<real>, h2: seq<real>, k: nat): real
    requires k <= |h1| == |h2|
  {
    if k == 0 then 0.0 else Abs(Carry(h1, h2, k - 1) - Abs(h1[k - 1] - h2[k - 1]))
  }

  /** The carried masses of the first `k` bins, added up. */
  function CarrySum(h1: seq<real>, h2: seq<real>, k: nat): real
    requires k <= |h1| == |h2|
  {
    if k == 0 then 0.0 else CarrySum(h1, h2, k - 1) + Carry(h1, h2, k)
  }

  /** The accumulation, and so the running difference, never goes negative. */
  lemma {:induction false} CarryNonNegative(h1: seq<real>, h2: seq<real>, k: nat)
    requires k <= |h1| == |h2|
    ensures Carry(h1, h2, k) >= 0.0 && CarrySum(h1, h2, k) >= 0.0
  {
    if k > 0 {
      CarryNonNegative(h1, h2, k - 1);
    }
  }

  /** The histogram difference the accumulation pass computes. */
  function HistogramDifference(h1: seq<real>, h2: seq<real>): (r: real)
    requires |h1| == |h2| >= 2
    ensures 0.0 <= r <= 1.0
  {
    CarryNonNegative(h1, h2, |h1|);
    Min(CarrySum(h1, h2, |h1|) / (|h1| - 1) as real, 1.0)
  }

  /** The running `difference` of the pass: each bin's carried mass times the
      work scale, added up. */
  function ScaledCarrySum(h1: seq<real>, h2: seq<real>, k: nat, w: real): real
    requires k <= |h1| == |h2|
  {
    if k == 0 then 0.0 else ScaledCarrySum(h1, h2, k - 1, w) + Carry(h1, h2, k) * w
  }

  lemma {:induction false} ScaledCarrySumFactors(h1: seq<real>, h2: seq<real>, k: nat, w: real)
    requires k <= |h1| == |h2|
    ensures ScaledCarrySum(h1, h2, k, w) == CarrySum(h1, h2, k) * w
  {
    if k > 0 {
      ScaledCarrySumFactors(h1, h2, k - 1, w);
      StepFactors(ScaledCarrySum(h1, h2, k, w), ScaledCarrySum(h1, h2, k - 1, w),
                  CarrySum(h1, h2, k - 1), Carry(h1, h2, k), CarrySum(h1, h2, k), w);
    }
  }

  /** The source's loop: `delta`, `reduction` by `min`, and the running
      `difference` scaled by `workScale = 1 / (N - 1)`. */
  method GetHistogramDifference(h1: seq<real>, h2: seq<real>) returns (r: real)
    requires |h1| == |h2| >= 2
    ensures r == HistogramDifference(h1, h2)
  {
    var difference := 0.0;
    var accumulation := 0.0;
    var workScale := 1.0 / (|h1| - 1) as real;
    var i := 0;
    while i < |h1|
      invariant 0 <= i <= |h1|
      invariant accumulation >= 0.0 && accumulation == Carry(h1, h2, i)
      invariant difference >= 0.0 && difference == ScaledCarrySum(h1, h2, i, workScale)
    {
      var delta := Abs(h1[i] - h2[i]);
      var reduction := Min(delta, accumulation);
      ReductionLeavesDistance(accumulation, delta);
      CarryNonNegative(h1, h2, i + 1);
      accumulation := accumulation - reduction;
      delta := delta - reduction;
      accumulation := accumulation + delta;
      ScaledNonNegative(accumulation, workScale);
      difference := difference + accumulation * workScale;
      i := i + 1;
    }
    ScaledCarrySumFactors(h1, h2, |h1|, workScale);
    ScaleIsDivision(CarrySum(h1, h2, |h1|), (|h1| - 1) as real);
    r := Min(difference, 1.0);
  }

  /** One step of `ScaledCarrySumFactors`, on plain numbers. */
  lemma StepFactors(scaled: real, scaledBefore: real, before: real, carried: real, total: real, w: real)
    requires scaled == scaledBefore + carried * w
    requires scaledBefore == before * w
    requires total == before + carried
    ensures scaled == total * w
  {
  }

  /** Cancelling `min(delta, acc)` from both and carrying the rest leaves
      `|acc - delta|`. */
  lemma ReductionLeavesDistance(acc: real, delta: real)
    ensures (acc - Min(delta, acc)) + (delta - Min(delta, acc)) == Abs(acc - delta)
  {
  }

  lemma ScaledNonNegative(x: real, w: real)
    requires x >= 0.0 && w >= 0.0
    ensures x * w >= 0.0
  {
  }

  lemma ScaleIsDivision(x: real, d: real)
    requires d != 0.0
    ensures x * (1.0 / d) == x / d
  {
  }

  lemma {:induction false} CarrySymmetric(h1: seq<real>, h2: seq<real>, k: nat)
    requires k <= |h1| == |h2|
    ensures Carry(h1, h2, k) == Carry(h2, h1, k)
    ensures CarrySum(h1, h2, k) == CarrySum(h2, h1, k)
  {
    if k > 0 {
      CarrySymmetric(h1, h2, k - 1);
      assert Abs(h1[k - 1] - h2[k - 1]) == Abs(h2[k - 1] - h1[k - 1]);
    }
  }

  /** Only `|h1[i] - h2[i]|` enters the pass, so the difference is symmetric. */
  lemma HistogramDifferenceSymmetric(h1: seq<real>, h2: seq<real>)
    requires |h1| == |h2| >= 2
    ensures HistogramDifference(h1, h2) == HistogramDifference(h2, h1)
  {
    CarrySymmetric(h1, h2, |h1|);
  }

  /** Nothing is carried while the histograms agree. */
  lemma {:induction false} CarryZeroWhileEqual(h1: seq<real>, h2: seq<real>, k: nat)
    requires k <= |h1| == |h2|
    requires forall i :: 0 <= i < k ==> h1[i] == h2[i]
    ensures Carry(h1, h2, k) == 0.0 && CarrySum(h1, h2, k) == 0.0
  {
    if k > 0 {
      CarryZeroWhileEqual(h1, h2, k - 1);
    }
  }

  lemma {:induction false} CarrySumAtLeast(h1: seq<real>, h2: seq<real>, m: nat, k: nat)
    requires 0 < m <= k <= |h1| == |h2|
    ensures CarrySum(h1, h2, k) >= Carry(h1, h2, m)
  {
    CarryNonNegative(h1, h2, k);
    CarryNonNegative(h1, h2, k - 1);
    if k > m {
      CarrySumAtLeast(h1, h2, m, k - 1);
    }
  }

  /** The difference is zero exactly when the two histograms are equal. */
  lemma HistogramDifferenceZeroIff(h1: seq<real>, h2: seq<real>)
    requires |h1| == |h2| >= 2
    ensures HistogramDifference(h1, h2) == 0.0 <==> h1 == h2
  {
    var n := |h1|;
    if h1 == h2 {
      CarryZeroWhileEqual(h1, h2, n);
    } else {
      assert exists j :: 0 <= j < n && h1[j] != h2[j];
      var k := 0;
      while h1[k] == h2[k]
        invariant 0 <= k < n
        invariant forall i :: 0 <= i < k ==> h1[i] == h2[i]
        invariant exists j :: k <= j < n && h1[j] != h2[j]
        decreases n - k
      {
        k := k + 1;
      }
      CarryZeroWhileEqual(h1, h2, k);
      assert Carry(h1, h2, k + 1) == Abs(h1[k] - h2[k]) > 0.0;
      CarrySumAtLeast(h1, h2, k + 1, n);
    }
  }

  /** The carried mass after bin k when two histograms differ only at bins
      a < b, and by the same amount `m` at both. */
  lemma {:induction false} CarryTwoBins(h1: seq<real>, h2: seq<real>, a: nat, b: nat, m: real, k: nat)
    requires k <= |h1| == |h2| && a < b < |h1|
    requires Abs(h1[a] - h2[a]) == m && Abs(h1[b] - h2[b]) == m
    requires forall i :: 0 <= i < |h1| && i != a && i != b ==> h1[i] == h2[i]
    ensures Carry(h1, h2, k) == if a < k <= b then m else 0.0
    ensures CarrySum(h1, h2, k) == if k <= a then 0.0 else if k <= b then (k - a) as real * m else (b - a) as real * m
  {
    if k > 0 {
      CarryTwoBins(h1, h2, a, b, m, k - 1);
    }
  }

  /** Moving mass `m` from bin a to bin b costs `m * (b - a) / (N - 1)`,
      clamped to 1. */
  lemma TwoBinDifference(h1: seq<real>, h2: seq<real>, a: nat, b: nat, m: real)
    requires |h1| == |h2| >= 2 && a < b < |h1|
    requires Abs(h1[a] - h2[a]) == m && Abs(h1[b] - h2[b]) == m
    requires forall i :: 0 <= i < |h1| && i != a && i != b ==> h1[i] == h2[i]
    ensures HistogramDifference(h1, h2) == Min((b - a) as real * m / (|h1| - 1) as real, 1.0)
  {
    CarryTwoBins(h1, h2, a, b, m, |h1|);
  }
}
