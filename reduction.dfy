/** The signature reduction pipeline: a greedy threshold dedup, a
    most-dissimilar-first size reduction, and the entry point that runs the
    dedup and caps the signatures kept per preset. */
module SignatureReduction {
  import opened RevGenTypes
  import opened SignatureMetric
  import RgHistogram

  /** `0.02f`, exactly. */
  const MinViableDistance: real := 5368709.0 / 268435456.0
  const MaxSignaturesPerPreset: nat := 5

  function Min(a: int, b: int): int { if b < a then b else a }

  // ---------------------------------------------------------------------
  // Threshold dedup

  /** Signature i survives the dedup: it has a preset, and no earlier
      survivor lies closer to it than `diff`. */
  ghost predicate Survives(s: seq<SignatureData>, diff: real, i: nat)
    requires i < |s|
    decreases i
  {
    && s[i].presetIndex != InvalidIndex
    && forall j :: 0 <= j < i ==> Survives(s, diff, j) ==> GetSignatureDifference(s[i], s[j]) >= diff
  }

  /** Signature k is still unmarked once the survivors among the first j
      signatures have been scanned. */
  ghost predicate ClearOf(s: seq<SignatureData>, diff: real, k: nat, j: nat)
    requires k < |s| && j <= |s|
  {
    && s[k].presetIndex != InvalidIndex
    && forall jj :: 0 <= jj < j ==> Survives(s, diff, jj) ==> GetSignatureDifference(s[k], s[jj]) >= diff
  }

  lemma ClearOfStep(s: seq<SignatureData>, diff: real, k: nat, j: nat)
    requires k < |s| && j < |s|
    ensures ClearOf(s, diff, k, j + 1) == (ClearOf(s, diff, k, j) && (Survives(s, diff, j) ==> GetSignatureDifference(s[k], s[j]) >= diff))
  {
  }

  /** The positions of the survivors among the first k signatures. */
  ghost function SurvivorIndices(s: seq<SignatureData>, diff: real, k: nat): seq<nat>
    requires k <= |s|
  {
    if k == 0 then []
    else SurvivorIndices(s, diff, k - 1) + (if Survives(s, diff, k - 1) then [k - 1] else [])
  }

  /** The survivors among the first k signatures, in input order. */
  ghost function Survivors(s: seq<SignatureData>, diff: real, k: nat): seq<SignatureData>
    requires k <= |s|
  {
    if k == 0 then []
    else Survivors(s, diff, k - 1) + (if Survives(s, diff, k - 1) then [s[k - 1]] else [])
  }

  ghost function Dedup(s: seq<SignatureData>, diff: real): seq<SignatureData>
  {
    Survivors(s, diff, |s|)
  }

  /** The input positions the dedup output is taken from. */
  ghost function DedupIndices(s: seq<SignatureData>, diff: real): seq<nat>
  {
    SurvivorIndices(s, diff, |s|)
  }

  /** The survivors are the input at strictly increasing positions, and those
      positions are exactly the surviving ones. */
  lemma {:induction false} SurvivorsSubsequence(s: seq<SignatureData>, diff: real, k: nat)
    requires k <= |s|
    ensures |Survivors(s, diff, k)| == |SurvivorIndices(s, diff, k)| <= k
    ensures forall m :: 0 <= m < |SurvivorIndices(s, diff, k)| ==>
      SurvivorIndices(s, diff, k)[m] < k && Survivors(s, diff, k)[m] == s[SurvivorIndices(s, diff, k)[m]]
    ensures forall m1, m2 :: 0 <= m1 < m2 < |SurvivorIndices(s, diff, k)| ==>
      SurvivorIndices(s, diff, k)[m1] < SurvivorIndices(s, diff, k)[m2]
    ensures forall i :: 0 <= i < k ==> (Survives(s, diff, i) <==> i in SurvivorIndices(s, diff, k))
  {
    if k > 0 {
      SurvivorsSubsequence(s, diff, k - 1);
    }
  }

  /** The dedup output is an order-preserving subsequence of the input with no
      invalid preset in it. */
  lemma DedupSubsequence(s: seq<SignatureData>, diff: real)
    ensures |Dedup(s, diff)| == |DedupIndices(s, diff)| <= |s|
    ensures forall m :: 0 <= m < |Dedup(s, diff)| ==>
      DedupIndices(s, diff)[m] < |s| && Dedup(s, diff)[m] == s[DedupIndices(s, diff)[m]]
    ensures forall m1, m2 :: 0 <= m1 < m2 < |Dedup(s, diff)| ==>
      DedupIndices(s, diff)[m1] < DedupIndices(s, diff)[m2]
    ensures forall x :: x in Dedup(s, diff) ==> x in s && x.presetIndex != InvalidIndex
  {
    SurvivorsSubsequence(s, diff, |s|);
    var idx := SurvivorIndices(s, diff, |s|);
    forall x | x in Dedup(s, diff)
      ensures x in s && x.presetIndex != InvalidIndex
    {
      var m :| 0 <= m < |Dedup(s, diff)| && Dedup(s, diff)[m] == x;
      assert Survives(s, diff, idx[m]);
    }
  }

  /** Any two survivors are at least `diff` apart. */
  lemma DedupSeparated(s: seq<SignatureData>, diff: real)
    ensures forall m1, m2 :: 0 <= m1 < m2 < |Dedup(s, diff)| ==>
      GetSignatureDifference(Dedup(s, diff)[m2], Dedup(s, diff)[m1]) >= diff
  {
    SurvivorsSubsequence(s, diff, |s|);
    var idx := SurvivorIndices(s, diff, |s|);
    forall m1, m2 | 0 <= m1 < m2 < |Dedup(s, diff)|
      ensures GetSignatureDifference(Dedup(s, diff)[m2], Dedup(s, diff)[m1]) >= diff
    {
      assert Survives(s, diff, idx[m1]) && Survives(s, diff, idx[m2]);
    }
  }

  /** Every valid signature that was dropped lies closer than `diff` to a
      survivor that comes before it. */
  lemma DedupDropsOnlyNearDuplicates(s: seq<SignatureData>, diff: real, i: nat)
    requires i < |s| && s[i].presetIndex != InvalidIndex
    requires !Survives(s, diff, i)
    ensures |Dedup(s, diff)| == |DedupIndices(s, diff)|
    ensures exists m :: (0 <= m < |Dedup(s, diff)| && DedupIndices(s, diff)[m] < i &&
      GetSignatureDifference(s[i], Dedup(s, diff)[m]) < diff)
  {
    SurvivorsSubsequence(s, diff, |s|);
    var j :| 0 <= j < i && Survives(s, diff, j) && GetSignatureDifference(s[i], s[j]) < diff;
    var idx := SurvivorIndices(s, diff, |s|);
    var m :| 0 <= m < |idx| && idx[m] == j;
    assert Dedup(s, diff)[m] == s[j];
  }

  /** The first signature with a preset always survives, and comes first. */
  lemma DedupKeepsFirstValid(s: seq<SignatureData>, diff: real, i: nat)
    requires i < |s| && s[i].presetIndex != InvalidIndex
    requires forall k :: 0 <= k < i ==> s[k].presetIndex == InvalidIndex
    ensures |Dedup(s, diff)| > 0 && Dedup(s, diff)[0] == s[i]
  {
    SurvivorsSubsequence(s, diff, |s|);
    var idx := SurvivorIndices(s, diff, |s|);
    assert Survives(s, diff, i);
    var m :| 0 <= m < |idx| && idx[m] == i;
    assert Survives(s, diff, idx[0]);
  }

  /** `s` is `signatures` with some preset indices set to InvalidIndex. */
  ghost predicate MarkedFrom(signatures: seq<SignatureData>, s: seq<SignatureData>)
  {
    && |s| == |signatures|
    && forall k :: 0 <= k < |s| ==> s[k] == signatures[k] || s[k] == signatures[k].(presetIndex := InvalidIndex)
  }

  /** Below j, exactly the survivors are unmarked. */
  ghost predicate SurvivorsUnmarked(signatures: seq<SignatureData>, s: seq<SignatureData>, diff: real, j: nat)
    requires MarkedFrom(signatures, s) && j <= |s|
  {
    forall k :: 0 <= k < j ==> (s[k].presetIndex != InvalidIndex <==> Survives(signatures, diff, k))
  }

  /** From lo up to hi, exactly those clear of the survivors below j are unmarked. */
  ghost predicate ClearUnmarked(signatures: seq<SignatureData>, s: seq<SignatureData>, diff: real, lo: nat, hi: nat, j: nat)
    requires MarkedFrom(signatures, s) && hi <= |s| && j <= |s|
  {
    forall k :: lo <= k < hi ==> (s[k].presetIndex != InvalidIndex <==> ClearOf(signatures, diff, k, j))
  }

  /** Marks every later signature closer than `diff` to an earlier unmarked one
      by setting its preset index to InvalidIndex, then removes the marked ones
      keeping the order of the rest. */
  method ReduceSignaturesByDifference(signatures: seq<SignatureData>, diff: real) returns (r: seq<SignatureData>)
    ensures r == Dedup(signatures, diff)
  {
    var s := signatures;
    var n := |s|;
    var j := 0;
    while j < n
      invariant 0 <= j <= n == |s|
      invariant MarkedFrom(signatures, s)
      invariant SurvivorsUnmarked(signatures, s, diff, j)
      invariant ClearUnmarked(signatures, s, diff, j, n, j)
    {
      if s[j].presetIndex != InvalidIndex {
        s := MarkNearDuplicates(signatures, s, diff, j);
      } else {
        forall k | j < k < n
          ensures ClearOf(signatures, diff, k, j + 1) == ClearOf(signatures, diff, k, j)
        {
          ClearOfStep(signatures, diff, k, j);
        }
      }
      j := j + 1;
    }
    r := [];
    var k := 0;
    while k < n
      invariant 0 <= k <= n
      invariant r == Survivors(signatures, diff, k)
    {
      if s[k].presetIndex != InvalidIndex {
        r := r + [s[k]];
      }
      k := k + 1;
    }
  }

  /** The inner pass for an unmarked signature j: marks every later unmarked
      signature closer than `diff` to it. */
  method MarkNearDuplicates(ghost signatures: seq<SignatureData>, s0: seq<SignatureData>, diff: real, j: nat)
      returns (s: seq<SignatureData>)
    requires MarkedFrom(signatures, s0) && j < |s0|
    requires SurvivorsUnmarked(signatures, s0, diff, j)
    requires ClearUnmarked(signatures, s0, diff, j, |s0|, j)
    requires s0[j].presetIndex != InvalidIndex
    ensures MarkedFrom(signatures, s)
    ensures SurvivorsUnmarked(signatures, s, diff, j + 1)
    ensures ClearUnmarked(signatures, s, diff, j + 1, |s|, j + 1)
  {
    s := s0;
    var n := |s|;
    assert s[j] == signatures[j] && Survives(signatures, diff, j);
    var i := j;
    while i < n
      invariant j <= i <= n == |s|
      invariant MarkedFrom(signatures, s)
      invariant s[j] == signatures[j]
      invariant SurvivorsUnmarked(signatures, s, diff, j + 1)
      invariant ClearUnmarked(signatures, s, diff, j + 1, i, j + 1)
      invariant ClearUnmarked(signatures, s, diff, i, n, j)
    {
      if s[i].presetIndex != InvalidIndex && i != j {
        ClearOfStep(signatures, diff, i, j);
        if GetSignatureDifference(s[i], s[j]) < diff {
          s := s[i := s[i].(presetIndex := InvalidIndex)];
        }
      } else if i != j {
        ClearOfStep(signatures, diff, i, j);
      }
      i := i + 1;
    }
  }

  // ---------------------------------------------------------------------
  // Size reduction

  /** A pair record: the later signature's position and the pair's difference. */
  datatype Candidate = Candidate(index: nat, diff: real)

  /** The largest difference between signature i and any one before it. */
  ghost function EarlierPeak(s: seq<SignatureData>, i: nat): real
    requires 1 <= i < |s|
  {
    PeakUpTo(s, i, i)
  }

  ghost function PeakUpTo(s: seq<SignatureData>, i: nat, k: nat): real
    requires 1 <= k <= i < |s|
  {
    if k == 1 then GetSignatureDifference(s[i], s[0])
    else RgHistogram.Max(PeakUpTo(s, i, k - 1), GetSignatureDifference(s[i], s[k - 1]))
  }

  lemma {:induction false} PeakUpToBounds(s: seq<SignatureData>, i: nat, k: nat) returns (jm: nat)
    requires 1 <= k <= i < |s|
    ensures forall j :: 0 <= j < k ==> GetSignatureDifference(s[i], s[j]) <= PeakUpTo(s, i, k)
    ensures jm < k && GetSignatureDifference(s[i], s[jm]) == PeakUpTo(s, i, k)
  {
    if k == 1 {
      jm := 0;
    } else {
      jm := PeakUpToBounds(s, i, k - 1);
      if PeakUpTo(s, i, k - 1) < GetSignatureDifference(s[i], s[k - 1]) {
        jm := k - 1;
      }
    }
  }

  /** The peak bounds every pair with an earlier signature, and is attained. */
  lemma EarlierPeakBounds(s: seq<SignatureData>, i: nat) returns (jm: nat)
    requires 1 <= i < |s|
    ensures forall j :: 0 <= j < i ==> GetSignatureDifference(s[i], s[j]) <= EarlierPeak(s, i)
    ensures jm < i && GetSignatureDifference(s[i], s[jm]) == EarlierPeak(s, i)
  {
    jm := PeakUpToBounds(s, i, i);
  }

  predicate DescendingByDiff(cs: seq<Candidate>)
  {
    forall a, b :: 0 <= a < b < |cs| ==> cs[a].diff >= cs[b].diff
  }

  function InsertByDiff(c: Candidate, cs: seq<Candidate>): (r: seq<Candidate>)
    ensures multiset(r) == multiset(cs) + multiset{c}
  {
    if |cs| == 0 || c.diff >= cs[0].diff then [c] + cs
    else
      assert cs == [cs[0]] + cs[1..];
      [cs[0]] + InsertByDiff(c, cs[1..])
  }

  lemma {:induction false} InsertKeepsDescending(c: Candidate, cs: seq<Candidate>)
    requires DescendingByDiff(cs)
    ensures DescendingByDiff(InsertByDiff(c, cs))
  {
    if |cs| == 0 || c.diff >= cs[0].diff {
      var r := [c] + cs;
      forall a, b | 0 <= a < b < |r| ensures r[a].diff >= r[b].diff {
        if a == 0 {
          assert c.diff >= cs[0].diff >= cs[b - 1].diff;
        } else {
          assert r[a] == cs[a - 1] && r[b] == cs[b - 1];
        }
      }
    } else {
      var tail := cs[1..];
      var rest := InsertByDiff(c, tail);
      InsertKeepsDescending(c, tail);
      var r := [cs[0]] + rest;
      forall a, b | 0 <= a < b < |r| ensures r[a].diff >= r[b].diff {
        if a == 0 {
          var x := rest[b - 1];
          assert x in multiset(rest);
          if x != c {
            assert x in multiset(tail);
            var k :| 0 <= k < |tail| && tail[k] == x;
            assert cs[k + 1] == x;
          }
        } else {
          assert r[a] == rest[a - 1] && r[b] == rest[b - 1];
        }
      }
    }
  }

  /** A descending-by-difference ordering of the pair records; it stands for
      the library sort, and only its order and its being a permutation are used. */
  function SortByDiff(cs: seq<Candidate>): (r: seq<Candidate>)
    ensures DescendingByDiff(r)
    ensures multiset(r) == multiset(cs)
  {
    if |cs| == 0 then []
    else
      assert cs == [cs[0]] + cs[1..];
      var sortedTail := SortByDiff(cs[1..]);
      InsertKeepsDescending(cs[0], sortedTail);
      InsertByDiff(cs[0], sortedTail)
  }

  function RangeSet(lo: nat, hi: nat): (r: set<nat>)
    ensures forall x :: x in r <==> lo <= x < hi
    decreases hi
  {
    if hi <= lo then {} else RangeSet(lo, hi - 1) + {hi - 1}
  }

  lemma {:induction false} RangeSetSize(lo: nat, hi: nat)
    requires lo <= hi
    ensures |RangeSet(lo, hi)| == hi - lo
    decreases hi
  {
    if lo < hi {
      RangeSetSize(lo, hi - 1);
    }
  }

  lemma {:induction false} SubsetSize(a: set<nat>, b: set<nat>)
    requires a <= b
    ensures |a| <= |b|
    decreases |a|
  {
    if a != {} {
      var x :| x in a;
      SubsetSize(a - {x}, b - {x});
    }
  }

  /** The positions that some record carries. */
  ghost function Positions(cs: seq<Candidate>): set<nat>
  {
    set k | 0 <= k < |cs| :: cs[k].index
  }

  /** While fewer than n - 1 positions have been chosen, some record is left. */
  lemma UnseenRemains(sorted: seq<Candidate>, index: nat, indices: set<nat>, n: nat)
    requires index <= |sorted| && n >= 1
    requires forall q :: 1 <= q < n ==> q in Positions(sorted)
    requires forall k :: 0 <= k < index ==> sorted[k].index in indices
    requires |indices| < n - 1
    ensures index < |sorted|
  {
    var seen := Positions(sorted[..index]);
    assert seen <= indices;
    SubsetSize(seen, indices);
    RangeSetSize(1, n);
    SubsetSize(RangeSet(1, n), Positions(sorted));
    assert sorted[..index] != sorted;
  }

  /** Records every pair (i, j) with i > j as (i, difference), orders them by
      descending difference, and takes the position of each record the first
      time it appears, until `size` signatures are chosen.  Position 0 is
      never a record's position, so at most n - 1 can be chosen. */
  method ReduceSignaturesBySize(s: seq<SignatureData>, size: nat) returns (sigs: seq<SignatureData>, picked: seq<nat>)
    requires size == 0 || size < |s|
    ensures |sigs| == |picked| == size
    ensures forall m :: 0 <= m < size ==> 1 <= picked[m] < |s| && sigs[m] == s[picked[m]]
    ensures forall m1, m2 :: 0 <= m1 < m2 < size ==> picked[m1] != picked[m2]
    ensures forall m1, m2 :: 0 <= m1 < m2 < size ==> EarlierPeak(s, picked[m1]) >= EarlierPeak(s, picked[m2])
    ensures forall m, q :: 0 <= m < size && 1 <= q < |s| && q !in picked ==> EarlierPeak(s, picked[m]) >= EarlierPeak(s, q)
  {
    ghost var partner;
    var diffs;
    diffs, partner := CollectCandidates(s);
    var sorted := SortByDiff(diffs);
    ghost var peaks := SortedRecords(s, diffs, partner, sorted);
    sigs, picked := SelectFirstSightings(s, sorted, size, peaks);
    PeaksAreEarlierPeaks(s);
  }

  /** Record c carries position c.index and its difference to position j. */
  ghost predicate FromPair(s: seq<SignatureData>, c: Candidate, j: nat)
  {
    j < c.index < |s| && c.diff == GetSignatureDifference(s[c.index], s[j])
  }

  /** The pair (q, j) has its record in `diffs`. */
  ghost predicate Recorded(s: seq<SignatureData>, diffs: seq<Candidate>, q: nat, j: nat)
    requires j < q < |s|
  {
    Candidate(q, GetSignatureDifference(s[q], s[j])) in diffs
  }

  lemma RecordedGrows(s: seq<SignatureData>, diffs: seq<Candidate>, c: Candidate)
    ensures forall q, j :: 0 <= j < q < |s| && Recorded(s, diffs, q, j) ==> Recorded(s, diffs + [c], q, j)
  {
  }

  /** The pair records of all i > j: each record carries the later position
      and the difference to some earlier one, and every such pair is
      recorded. */
  method CollectCandidates(s: seq<SignatureData>) returns (diffs: seq<Candidate>, ghost partner: seq<nat>)
    ensures |partner| == |diffs|
    ensures forall k :: 0 <= k < |diffs| ==> FromPair(s, diffs[k], partner[k])
    ensures forall q, j :: 0 <= j < q < |s| ==> Recorded(s, diffs, q, j)
  {
    var n := |s|;
    diffs, partner := [], [];
    var j := 0;
    while j < n
      invariant 0 <= j <= n
      invariant |partner| == |diffs|
      invariant forall k :: 0 <= k < |diffs| ==> FromPair(s, diffs[k], partner[k])
      invariant forall q, jj :: 0 <= jj < j && jj < q < n ==> Recorded(s, diffs, q, jj)
    {
      var i := j;
      while i < n
        invariant j <= i <= n
        invariant |partner| == |diffs|
        invariant forall k :: 0 <= k < |diffs| ==> FromPair(s, diffs[k], partner[k])
        invariant forall q, jj :: 0 <= jj < j && jj < q < n ==> Recorded(s, diffs, q, jj)
        invariant forall q :: j < q < i ==> Recorded(s, diffs, q, j)
      {
        if i != j {
          var delta := GetSignatureDifference(s[i], s[j]);
          RecordedGrows(s, diffs, Candidate(i, delta));
          diffs := diffs + [Candidate(i, delta)];
          partner := partner + [j];
        }
        i := i + 1;
      }
      j := j + 1;
    }
  }

  /** Each position's peak, with 0 standing in at position 0. */
  ghost function Peaks(s: seq<SignatureData>): seq<real>
  {
    seq(|s|, q requires 0 <= q < |s| => if q == 0 then 0.0 else EarlierPeak(s, q))
  }

  lemma PeaksAreEarlierPeaks(s: seq<SignatureData>)
    ensures |Peaks(s)| == |s|
    ensures forall q :: 1 <= q < |s| ==> Peaks(s)[q] == EarlierPeak(s, q)
  {
  }

  /** What the selection needs of the sorted records: each difference is at
      most its position's peak, and each position from 1 on has a record
      carrying its peak. */
  lemma SortedRecords(s: seq<SignatureData>, diffs: seq<Candidate>, partner: seq<nat>, sorted: seq<Candidate>)
      returns (peaks: seq<real>)
    requires |partner| == |diffs|
    requires forall k :: 0 <= k < |diffs| ==> FromPair(s, diffs[k], partner[k])
    requires forall q, j :: 0 <= j < q < |s| ==> Recorded(s, diffs, q, j)
    requires multiset(sorted) == multiset(diffs)
    requires DescendingByDiff(sorted)
    ensures peaks == Peaks(s) && RespectsPeaks(sorted, peaks)
  {
    peaks := Peaks(s);
    forall c ensures c in sorted <==> c in diffs {
      assert c in sorted <==> c in multiset(sorted);
      assert c in diffs <==> c in multiset(diffs);
    }
    forall c | c in diffs ensures 1 <= c.index < |s| && c.diff <= peaks[c.index] {
      var k :| 0 <= k < |diffs| && diffs[k] == c;
      assert FromPair(s, diffs[k], partner[k]);
      var _ := EarlierPeakBounds(s, c.index);
    }
    forall q | 1 <= q < |s| ensures Candidate(q, peaks[q]) in sorted {
      var jm := EarlierPeakBounds(s, q);
      assert Recorded(s, diffs, q, jm);
    }
    forall q | 1 <= q < |s| ensures q in Positions(sorted) {
      assert Candidate(q, peaks[q]) in sorted;
      var p :| 0 <= p < |sorted| && sorted[p] == Candidate(q, peaks[q]);
    }
  }

  /** What the selection needs of the sorted records: they are in descending
      order, each difference is at most its position's peak, and each
      position from 1 on has a record carrying its peak. */
  ghost predicate RespectsPeaks(sorted: seq<Candidate>, peaks: seq<real>)
  {
    && DescendingByDiff(sorted)
    && (forall c :: c in sorted ==> 1 <= c.index < |peaks| && c.diff <= peaks[c.index])
    && (forall q :: 1 <= q < |peaks| ==> Candidate(q, peaks[q]) in sorted)
    && (forall q :: 1 <= q < |peaks| ==> q in Positions(sorted))
  }

  /** The selection loop's state after looking at the first `index` records:
      the picks so far, their peaks in non-increasing order and no smaller
      than `floor`, no record still to come above `floor`, and every record
      looked at already picked. */
  ghost predicate Selecting(s: seq<SignatureData>, sorted: seq<Candidate>, peaks: seq<real>,
                            sigs: seq<SignatureData>, picked: seq<nat>, indices: set<nat>, index: nat, floor: real)
  {
    && index <= |sorted| && |peaks| == |s|
    && PickedFrom(s, sigs, picked, indices)
    && PeakOrdered(peaks, picked, floor)
    && (|picked| > 0 ==> forall k :: index <= k < |sorted| ==> sorted[k].diff <= floor)
    && (forall k :: 0 <= k < index ==> sorted[k].index in indices)
  }

  /** One turn of the selection loop keeps its state. */
  lemma SelectionStep(s: seq<SignatureData>, sorted: seq<Candidate>, peaks: seq<real>,
                      sigs: seq<SignatureData>, picked: seq<nat>, indices: set<nat>, index: nat, floor: real)
    requires RespectsPeaks(sorted, peaks)
    requires Selecting(s, sorted, peaks, sigs, picked, indices, index, floor)
    requires |sigs| < |s| - 1
    ensures index < |sorted| && 1 <= sorted[index].index < |s|
    ensures sorted[index].index !in indices ==>
      Selecting(s, sorted, peaks, sigs + [s[sorted[index].index]], picked + [sorted[index].index],
                indices + {sorted[index].index}, index + 1, sorted[index].diff)
    ensures sorted[index].index in indices ==>
      Selecting(s, sorted, peaks, sigs, picked, indices, index + 1, floor)
  {
    UnseenRemains(sorted, index, indices, |s|);
    assert sorted[index] in sorted;
    if sorted[index].index !in indices {
      SelectionPick(s, sorted, peaks, sigs, picked, indices, index, floor);
    } else {
      SelectionSkip(s, sorted, peaks, sigs, picked, indices, index, floor);
    }
  }

  lemma SelectionPick(s: seq<SignatureData>, sorted: seq<Candidate>, peaks: seq<real>,
                      sigs: seq<SignatureData>, picked: seq<nat>, indices: set<nat>, index: nat, floor: real)
    requires RespectsPeaks(sorted, peaks)
    requires Selecting(s, sorted, peaks, sigs, picked, indices, index, floor)
    requires index < |sorted| && sorted[index].index !in indices
    ensures Selecting(s, sorted, peaks, sigs + [s[sorted[index].index]], picked + [sorted[index].index],
                      indices + {sorted[index].index}, index + 1, sorted[index].diff)
  {
    var c := sorted[index];
    FirstSightIsPeak(peaks, sorted, index, indices);
    PickedFromStep(s, sigs, picked, indices, c.index);
    PeakOrderedStep(peaks, picked, floor, c.index);
  }

  lemma SelectionSkip(s: seq<SignatureData>, sorted: seq<Candidate>, peaks: seq<real>,
                      sigs: seq<SignatureData>, picked: seq<nat>, indices: set<nat>, index: nat, floor: real)
    requires Selecting(s, sorted, peaks, sigs, picked, indices, index, floor)
    requires index < |sorted| && sorted[index].index in indices
    ensures Selecting(s, sorted, peaks, sigs, picked, indices, index + 1, floor)
  {
  }

  /** Once the loop stops, every pick's peak is at least that of any position
      not picked. */
  lemma SelectionDominates(s: seq<SignatureData>, sorted: seq<Candidate>, peaks: seq<real>,
                           sigs: seq<SignatureData>, picked: seq<nat>, indices: set<nat>, index: nat, floor: real)
    requires RespectsPeaks(sorted, peaks)
    requires Selecting(s, sorted, peaks, sigs, picked, indices, index, floor)
    ensures |sigs| == |picked|
    ensures forall m :: 0 <= m < |picked| ==> 1 <= picked[m] < |s| && sigs[m] == s[picked[m]]
    ensures forall m1, m2 :: 0 <= m1 < m2 < |picked| ==> picked[m1] != picked[m2]
    ensures forall m1, m2 :: 0 <= m1 < m2 < |picked| ==> peaks[picked[m1]] >= peaks[picked[m2]]
    ensures forall m, q :: 0 <= m < |picked| && 1 <= q < |s| && q !in picked ==> peaks[picked[m]] >= peaks[q]
  {
    forall m, q | 0 <= m < |picked| && 1 <= q < |s| && q !in picked
      ensures peaks[picked[m]] >= peaks[q]
    {
      var p :| 0 <= p < |sorted| && sorted[p] == Candidate(q, peaks[q]);
    }
  }

  /** The selection loop over the sorted records, stated against any `peaks`
      the records respect. */
  method SelectFirstSightings(s: seq<SignatureData>, sorted: seq<Candidate>, size: nat, ghost peaks: seq<real>)
      returns (sigs: seq<SignatureData>, picked: seq<nat>)
    requires size == 0 || size < |s|
    requires |peaks| == |s| && RespectsPeaks(sorted, peaks)
    ensures |sigs| == |picked| == size
    ensures forall m :: 0 <= m < size ==> 1 <= picked[m] < |s| && sigs[m] == s[picked[m]]
    ensures forall m1, m2 :: 0 <= m1 < m2 < size ==> picked[m1] != picked[m2]
    ensures forall m1, m2 :: 0 <= m1 < m2 < size ==> peaks[picked[m1]] >= peaks[picked[m2]]
    ensures forall m, q :: 0 <= m < size && 1 <= q < |s| && q !in picked ==> peaks[picked[m]] >= peaks[q]
  {
    sigs, picked := [], [];
    var indices: set<nat> := {};
    var index := 0;
    ghost var floor := 0.0;
    while |sigs| < size
      invariant Selecting(s, sorted, peaks, sigs, picked, indices, index, floor)
      invariant |sigs| <= size
      decreases |sorted| - index
    {
      SelectionStep(s, sorted, peaks, sigs, picked, indices, index, floor);
      var c := sorted[index];
      if c.index !in indices {
        sigs := sigs + [s[c.index]];
        indices := indices + {c.index};
        picked := picked + [c.index];
        floor := c.diff;
      }
      index := index + 1;
    }
    SelectionDominates(s, sorted, peaks, sigs, picked, indices, index, floor);
  }

  /** The chosen signatures are the input at distinct positions from 1 on,
      and `indices` holds exactly those positions. */
  ghost predicate PickedFrom(s: seq<SignatureData>, sigs: seq<SignatureData>, picked: seq<nat>, indices: set<nat>)
  {
    && |sigs| == |picked| == |indices|
    && (forall x :: x in indices <==> x in picked)
    && (forall m :: 0 <= m < |picked| ==> 1 <= picked[m] < |s| && sigs[m] == s[picked[m]])
    && (forall m1, m2 :: 0 <= m1 < m2 < |picked| ==> picked[m1] != picked[m2])
  }

  lemma PickedFromStep(s: seq<SignatureData>, sigs: seq<SignatureData>, picked: seq<nat>, indices: set<nat>, q: nat)
    requires PickedFrom(s, sigs, picked, indices)
    requires 1 <= q < |s| && q !in indices
    ensures PickedFrom(s, sigs + [s[q]], picked + [q], indices + {q})
  {
  }

  /** The chosen peaks never increase and all stay at or above `floor`. */
  ghost predicate PeakOrdered(peaks: seq<real>, picked: seq<nat>, floor: real)
  {
    && (forall m :: 0 <= m < |picked| ==> picked[m] < |peaks| && peaks[picked[m]] >= floor)
    && (forall m1, m2 :: 0 <= m1 < m2 < |picked| ==> peaks[picked[m1]] >= peaks[picked[m2]])
  }

  lemma PeakOrderedStep(peaks: seq<real>, picked: seq<nat>, floor: real, q: nat)
    requires PeakOrdered(peaks, picked, floor)
    requires q < |peaks| && (|picked| > 0 ==> peaks[q] <= floor)
    ensures PeakOrdered(peaks, picked + [q], peaks[q])
  {
  }

  /** The record met first for a position carries that position's peak. */
  lemma FirstSightIsPeak(peaks: seq<real>, sorted: seq<Candidate>, index: nat, indices: set<nat>)
    requires DescendingByDiff(sorted) && index < |sorted|
    requires forall c :: c in sorted ==> 1 <= c.index < |peaks| && c.diff <= peaks[c.index]
    requires forall q :: 1 <= q < |peaks| ==> Candidate(q, peaks[q]) in sorted
    requires forall k :: 0 <= k < index ==> sorted[k].index in indices
    requires sorted[index].index !in indices
    ensures 1 <= sorted[index].index < |peaks| && sorted[index].diff == peaks[sorted[index].index]
    ensures forall k :: index <= k < |sorted| ==> peaks[sorted[index].index] >= sorted[k].diff
  {
    var q := sorted[index].index;
    assert sorted[index] in sorted;
    var p :| 0 <= p < |sorted| && sorted[p] == Candidate(q, peaks[q]);
    assert p >= index;
  }

  // ---------------------------------------------------------------------
  // Per-preset reduction

  /** The signatures of preset p, in order. */
  function OfPreset(s: seq<SignatureData>, p: SizeT): seq<SignatureData>
  {
    if |s| == 0 then []
    else OfPreset(s[..|s| - 1], p) + (if s[|s| - 1].presetIndex == p then [s[|s| - 1]] else [])
  }

  /** A preset's signatures come from the input, carry that preset, and are
      no more than the input. */
  lemma {:induction false} OfPresetMembers(s: seq<SignatureData>, p: SizeT)
    ensures |OfPreset(s, p)| <= |s|
    ensures forall i :: 0 <= i < |OfPreset(s, p)| ==> OfPreset(s, p)[i] in s && OfPreset(s, p)[i].presetIndex == p
    decreases |s|
  {
    if |s| > 0 {
      var init := s[..|s| - 1];
      OfPresetMembers(init, p);
      forall i | 0 <= i < |OfPreset(init, p)| ensures OfPreset(init, p)[i] in s {
        var k :| 0 <= k < |init| && init[k] == OfPreset(init, p)[i];
        assert s[k] == init[k];
      }
    }
  }

  lemma {:induction false} OfPresetAppend(a: seq<SignatureData>, b: seq<SignatureData>, p: SizeT)
    ensures OfPreset(a + b, p) == OfPreset(a, p) + OfPreset(b, p)
    decreases |b|
  {
    if |b| == 0 {
      assert a + b == a;
    } else {
      var ab := a + b;
      assert ab[..|ab| - 1] == a + b[..|b| - 1];
      assert ab[|ab| - 1] == b[|b| - 1];
      OfPresetAppend(a, b[..|b| - 1], p);
    }
  }

  /** A group whose members all belong to preset k. */
  lemma {:induction false} OfPresetUniform(g: seq<SignatureData>, k: SizeT, p: SizeT)
    requires forall i :: 0 <= i < |g| ==> g[i].presetIndex == k
    ensures OfPreset(g, p) == if p == k then g else []
    decreases |g|
  {
    if |g| > 0 {
      var init := g[..|g| - 1];
      OfPresetUniform(init, k, p);
      assert init + [g[|g| - 1]] == g;
    }
  }

  /** The signatures whose preset is not in P. */
  ghost function Outside(s: seq<SignatureData>, P: set<SizeT>): seq<SignatureData>
  {
    if |s| == 0 then []
    else Outside(s[..|s| - 1], P) + (if s[|s| - 1].presetIndex !in P then [s[|s| - 1]] else [])
  }

  lemma {:induction false} OutsideSplit(s: seq<SignatureData>, P: set<SizeT>, k: SizeT)
    requires k !in P
    ensures |Outside(s, P)| == |Outside(s, P + {k})| + |OfPreset(s, k)|
    decreases |s|
  {
    if |s| > 0 {
      OutsideSplit(s[..|s| - 1], P, k);
    }
  }

  lemma {:induction false} OutsideNothing(s: seq<SignatureData>)
    ensures |Outside(s, {})| == |s|
    decreases |s|
  {
    if |s| > 0 {
      OutsideNothing(s[..|s| - 1]);
    }
  }

  /** Every member of a is a member of b. */
  ghost predicate Within(a: seq<SignatureData>, b: seq<SignatureData>)
  {
    forall i :: 0 <= i < |a| ==> a[i] in b
  }

  /** The surviving signatures of preset p. */
  ghost function Group(signatures: seq<SignatureData>, p: SizeT): seq<SignatureData>
  {
    OfPreset(Dedup(signatures, MinViableDistance), p)
  }

  /** The per-preset loop's state once the presets in `done` are handled:
      every handled small group is copied whole, every handled large group is
      cut to MaxSignaturesPerPreset of its members, nothing else is in `sigs`,
      and `sigs` is no longer than the survivors of the handled presets. */
  ghost predicate Gathered(survivors: seq<SignatureData>, sigs: seq<SignatureData>, done: set<SizeT>)
  {
    && (forall p :: p !in done ==> OfPreset(sigs, p) == [])
    && (forall p :: p in done ==> Handled(OfPreset(survivors, p), OfPreset(sigs, p)))
    && Within(sigs, survivors)
    && |sigs| + |Outside(survivors, done)| <= |survivors|
  }

  /** A handled group: the whole group when small, otherwise
      MaxSignaturesPerPreset of its members. */
  ghost predicate Handled(group: seq<SignatureData>, g: seq<SignatureData>)
  {
    if |group| <= MaxSignaturesPerPreset then g == group
    else |g| == MaxSignaturesPerPreset && Within(g, group) && multiset(g) <= multiset(group)
  }

  /** Appending a handled group keeps the loop's state. */
  lemma GatherStep(survivors: seq<SignatureData>, sigs: seq<SignatureData>, done: set<SizeT>, p: SizeT, g: seq<SignatureData>)
    requires Gathered(survivors, sigs, done) && p !in done
    requires Handled(OfPreset(survivors, p), g)
    ensures Gathered(survivors, sigs + g, done + {p})
  {
    GroupMembers(survivors, p, g);
    GatherUntouched(sigs, done, p, g);
    GatherHandled(survivors, sigs, done, p, g);
    OutsideSplit(survivors, done, p);
    GatherWithin(survivors, sigs, g);
  }

  lemma GatherUntouched(sigs: seq<SignatureData>, done: set<SizeT>, p: SizeT, g: seq<SignatureData>)
    requires forall i :: 0 <= i < |g| ==> g[i].presetIndex == p
    requires forall q :: q !in done ==> OfPreset(sigs, q) == []
    ensures forall q :: q !in done + {p} ==> OfPreset(sigs + g, q) == []
  {
    forall q | q !in done + {p} ensures OfPreset(sigs + g, q) == [] {
      AppendGroupAt(sigs, g, p, q);
    }
  }

  lemma GatherHandled(survivors: seq<SignatureData>, sigs: seq<SignatureData>, done: set<SizeT>, p: SizeT, g: seq<SignatureData>)
    requires forall i :: 0 <= i < |g| ==> g[i].presetIndex == p
    requires p !in done && OfPreset(sigs, p) == []
    requires Handled(OfPreset(survivors, p), g)
    requires forall q :: q in done ==> Handled(OfPreset(survivors, q), OfPreset(sigs, q))
    ensures forall q :: q in done + {p} ==> Handled(OfPreset(survivors, q), OfPreset(sigs + g, q))
  {
    HandledAppended(survivors, sigs, g, p);
    HandledKept(survivors, sigs, done, p, g);
  }

  /** Appending preset p's block, when p has no output yet, makes it p's output. */
  lemma HandledAppended(survivors: seq<SignatureData>, sigs: seq<SignatureData>, g: seq<SignatureData>, p: SizeT)
    requires forall i :: 0 <= i < |g| ==> g[i].presetIndex == p
    requires OfPreset(sigs, p) == [] && Handled(OfPreset(survivors, p), g)
    ensures Handled(OfPreset(survivors, p), OfPreset(sigs + g, p))
  {
    AppendGroupAt(sigs, g, p, p);
  }

  /** Appending preset p's block leaves the handled presets' outputs as they were. */
  lemma HandledKept(survivors: seq<SignatureData>, sigs: seq<SignatureData>, done: set<SizeT>, p: SizeT, g: seq<SignatureData>)
    requires forall i :: 0 <= i < |g| ==> g[i].presetIndex == p
    requires p !in done
    requires forall q :: q in done ==> Handled(OfPreset(survivors, q), OfPreset(sigs, q))
    ensures forall q :: q in done ==> Handled(OfPreset(survivors, q), OfPreset(sigs + g, q))
  {
    forall q | q in done ensures Handled(OfPreset(survivors, q), OfPreset(sigs + g, q)) {
      AppendGroupAt(sigs, g, p, q);
    }
  }

  lemma GatherWithin(survivors: seq<SignatureData>, sigs: seq<SignatureData>, g: seq<SignatureData>)
    requires Within(sigs, survivors)
    requires forall i :: 0 <= i < |g| ==> g[i] in survivors
    ensures Within(sigs + g, survivors)
  {
    var sigs' := sigs + g;
    forall i | 0 <= i < |sigs'| ensures sigs'[i] in survivors {
      if i >= |sigs| {
        assert sigs'[i] == g[i - |sigs|];
      }
    }
  }

  /** A handled group is drawn from the survivors of its preset. */
  lemma GroupMembers(survivors: seq<SignatureData>, p: SizeT, g: seq<SignatureData>)
    requires Handled(OfPreset(survivors, p), g)
    ensures |g| <= |OfPreset(survivors, p)|
    ensures forall i :: 0 <= i < |g| ==> g[i] in survivors && g[i].presetIndex == p
  {
    var group := OfPreset(survivors, p);
    OfPresetMembers(survivors, p);
    forall i | 0 <= i < |g| ensures g[i] in survivors && g[i].presetIndex == p {
      var k :| 0 <= k < |group| && group[k] == g[i];
    }
  }

  /** Appending a group of preset p adds to p's signatures only. */
  lemma AppendGroupAt(sigs: seq<SignatureData>, g: seq<SignatureData>, p: SizeT, q: SizeT)
    requires forall i :: 0 <= i < |g| ==> g[i].presetIndex == p
    ensures q != p ==> OfPreset(sigs + g, q) == OfPreset(sigs, q)
    ensures q == p && OfPreset(sigs, q) == [] ==> OfPreset(sigs + g, q) == g
  {
    OfPresetAppend(sigs, g, q);
    OfPresetUniform(g, p, q);
    if q != p {
      assert OfPreset(sigs, q) + [] == OfPreset(sigs, q);
    } else {
      assert [] + g == g;
    }
  }

  /** Runs the threshold dedup, groups the survivors by preset, and keeps at
      most MaxSignaturesPerPreset of each group, chosen by the size reduction;
      the groups are visited in an unspecified order. */
  method ReduceSignatures(signatures: seq<SignatureData>) returns (sigs: seq<SignatureData>)
    ensures |sigs| <= |signatures|
    ensures forall x :: x in sigs ==> x in signatures && x.presetIndex != InvalidIndex
    ensures forall p: SizeT :: |OfPreset(sigs, p)| == Min(|Group(signatures, p)|, MaxSignaturesPerPreset)
    ensures forall p: SizeT :: |Group(signatures, p)| <= MaxSignaturesPerPreset ==> OfPreset(sigs, p) == Group(signatures, p)
    ensures forall p: SizeT :: Within(OfPreset(sigs, p), Group(signatures, p))
    ensures forall p: SizeT :: |Group(signatures, p)| > MaxSignaturesPerPreset ==> multiset(OfPreset(sigs, p)) <= multiset(Group(signatures, p))
  {
    var survivors := ReduceSignaturesByDifference(signatures, MinViableDistance);
    var sigMap := GroupByPreset(survivors);
    sigs := GatherGroups(survivors, sigMap);
    CappedAll(signatures, survivors, sigs);
  }

  /** Builds the map from preset index to that preset's signatures, in order. */
  method GroupByPreset(survivors: seq<SignatureData>) returns (sigMap: map<SizeT, seq<SignatureData>>)
    ensures forall p :: p in sigMap ==> sigMap[p] == OfPreset(survivors, p)
    ensures forall p :: p !in sigMap ==> OfPreset(survivors, p) == []
  {
    sigMap := map[];
    var k := 0;
    while k < |survivors|
      invariant 0 <= k <= |survivors|
      invariant forall p :: p in sigMap ==> sigMap[p] == OfPreset(survivors[..k], p)
      invariant forall p :: p !in sigMap ==> OfPreset(survivors[..k], p) == []
    {
      var sg := survivors[k];
      assert survivors[..k + 1][..k] == survivors[..k];
      sigMap := sigMap[sg.presetIndex := (if sg.presetIndex in sigMap then sigMap[sg.presetIndex] else []) + [sg]];
      k := k + 1;
    }
    assert survivors[..k] == survivors;
  }

  /** Cuts one preset's group to MaxSignaturesPerPreset by the size reduction
      when it is larger, and keeps it whole otherwise. */
  method CapGroup(group: seq<SignatureData>) returns (g: seq<SignatureData>)
    ensures Handled(group, g)
  {
    g := group;
    if |g| > MaxSignaturesPerPreset {
      var picked;
      g, picked := ReduceSignaturesBySize(g, MaxSignaturesPerPreset);
      assert Within(g, group) by {
        forall i | 0 <= i < |g| ensures g[i] in group {
          assert g[i] == group[picked[i]];
        }
      }
      DistinctPicksSubMultiset(group, g, picked);
    }
  }

  /** Signatures taken from distinct positions of `s` are a sub-multiset of `s`:
      no signature is kept more often than it occurs. */
  lemma {:induction false} DistinctPicksSubMultiset(s: seq<SignatureData>, sigs: seq<SignatureData>, picked: seq<nat>)
    requires |sigs| == |picked|
    requires forall m :: 0 <= m < |picked| ==> picked[m] < |s| && sigs[m] == s[picked[m]]
    requires forall m1, m2 :: 0 <= m1 < m2 < |picked| ==> picked[m1] != picked[m2]
    ensures multiset(sigs) <= multiset(s)
    decreases |s|
  {
    if |picked| > 0 {
      assert picked[0] < |s|;
      var k := |s| - 1;
      var s' := s[..k];
      assert s == s' + [s[k]];
      if m :| 0 <= m < |picked| && picked[m] == k {
        var sigs', picked' := WithoutPick(s, sigs, picked, m);
        DistinctPicksSubMultiset(s', sigs', picked');
      } else {
        forall i | 0 <= i < |picked| ensures picked[i] < k && sigs[i] == s'[picked[i]] {
        }
        DistinctPicksSubMultiset(s', sigs, picked);
      }
    }
  }

  /** Dropping the pick of the last position leaves distinct picks of the
      positions before it. */
  lemma WithoutPick(s: seq<SignatureData>, sigs: seq<SignatureData>, picked: seq<nat>, m: nat)
      returns (sigs': seq<SignatureData>, picked': seq<nat>)
    requires |sigs| == |picked| && m < |picked| && picked[m] == |s| - 1
    requires forall m :: 0 <= m < |picked| ==> picked[m] < |s| && sigs[m] == s[picked[m]]
    requires forall m1, m2 :: 0 <= m1 < m2 < |picked| ==> picked[m1] != picked[m2]
    ensures |sigs'| == |picked'|
    ensures forall i :: 0 <= i < |picked'| ==> picked'[i] < |s| - 1 && sigs'[i] == s[..|s| - 1][picked'[i]]
    ensures forall m1, m2 :: 0 <= m1 < m2 < |picked'| ==> picked'[m1] != picked'[m2]
    ensures multiset(sigs) == multiset(sigs') + multiset{s[|s| - 1]}
  {
    sigs' := sigs[..m] + sigs[m + 1..];
    picked' := picked[..m] + picked[m + 1..];
    forall i | 0 <= i < |picked'|
      ensures picked'[i] == picked[if i < m then i else i + 1] && sigs'[i] == sigs[if i < m then i else i + 1]
    {
    }
    forall i | 0 <= i < |picked'| ensures picked'[i] < |s| - 1 && sigs'[i] == s[..|s| - 1][picked'[i]] {
      var a := if i < m then i else i + 1;
      assert picked[a] != picked[m] by {
        if a < m {
          assert picked[a] != picked[m];
        } else {
          assert picked[m] != picked[a];
        }
      }
    }
    forall m1, m2 | 0 <= m1 < m2 < |picked'| ensures picked'[m1] != picked'[m2] {
      var a := if m1 < m then m1 else m1 + 1;
      var b := if m2 < m then m2 else m2 + 1;
      assert picked'[m1] == picked[a] && picked'[m2] == picked[b];
    }
    assert sigs == sigs[..m] + [sigs[m]] + sigs[m + 1..];
  }

  /** Every preset's output is its group, capped; the output is drawn from the
      survivors and is no longer than they are. */
  ghost predicate Capped(survivors: seq<SignatureData>, sigs: seq<SignatureData>)
  {
    && (forall p :: Handled(OfPreset(survivors, p), OfPreset(sigs, p)))
    && Within(sigs, survivors)
    && |sigs| <= |survivors|
  }

  /** Visits the groups of the map in an unspecified order and appends each
      capped group to the output. */
  method GatherGroups(survivors: seq<SignatureData>, sigMap: map<SizeT, seq<SignatureData>>) returns (sigs: seq<SignatureData>)
    requires forall p :: p in sigMap ==> sigMap[p] == OfPreset(survivors, p)
    requires forall p :: p !in sigMap ==> OfPreset(survivors, p) == []
    ensures Capped(survivors, sigs)
  {
    sigs := [];
    var remaining := sigMap.Keys;
    ghost var done: set<SizeT> := {};
    OutsideNothing(survivors);
    while remaining != {}
      invariant forall q :: q in done <==> q in sigMap && q !in remaining
      invariant forall q :: q in remaining ==> q in sigMap
      invariant Gathered(survivors, sigs, done)
      decreases remaining
    {
      var p :| p in remaining;
      var g := CapGroup(sigMap[p]);
      GatherStep(survivors, sigs, done, p, g);
      sigs := sigs + g;
      remaining := remaining - {p};
      done := done + {p};
    }
    GatheredComplete(survivors, sigs, done);
  }

  /** Once every preset with survivors is handled, the output is capped. */
  lemma GatheredComplete(survivors: seq<SignatureData>, sigs: seq<SignatureData>, done: set<SizeT>)
    requires Gathered(survivors, sigs, done)
    requires forall p :: p !in done ==> OfPreset(survivors, p) == []
    ensures Capped(survivors, sigs)
  {
    forall p ensures Handled(OfPreset(survivors, p), OfPreset(sigs, p)) {
      if p !in done {
        assert OfPreset(survivors, p) == [] && OfPreset(sigs, p) == [];
      }
    }
  }

  /** The capped output of the dedup survivors meets the method's promise. */
  lemma CappedAll(signatures: seq<SignatureData>, survivors: seq<SignatureData>, sigs: seq<SignatureData>)
    requires survivors == Dedup(signatures, MinViableDistance)
    requires Capped(survivors, sigs)
    ensures |sigs| <= |signatures|
    ensures forall x :: x in sigs ==> x in signatures && x.presetIndex != InvalidIndex
    ensures forall p: SizeT :: |OfPreset(sigs, p)| == Min(|Group(signatures, p)|, MaxSignaturesPerPreset)
    ensures forall p: SizeT :: |Group(signatures, p)| <= MaxSignaturesPerPreset ==> OfPreset(sigs, p) == Group(signatures, p)
    ensures forall p: SizeT :: Within(OfPreset(sigs, p), Group(signatures, p))
    ensures forall p: SizeT :: |Group(signatures, p)| > MaxSignaturesPerPreset ==> multiset(OfPreset(sigs, p)) <= multiset(Group(signatures, p))
  {
    DedupSubsequence(signatures, MinViableDistance);
    forall x | x in sigs ensures x in signatures && x.presetIndex != InvalidIndex {
      var i :| 0 <= i < |sigs| && sigs[i] == x;
      assert x in survivors;
    }
  }
}
