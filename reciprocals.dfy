/** For every scan direction, the other direction that opposes it most: the
    one with the smallest dot product.  The scan starts from index 0 with a
    best dot product of 1, so when no other direction scores below 1 the
    answer is direction 0. */
module Reciprocals {
  import opened RevGenTypes

  /** Some direction other than `j` has a dot product with it below 1. */
  ghost predicate HasOpposing(dirs: seq<Vec3>, j: nat)
    requires j < |dirs|
  {
    exists i :: 0 <= i < |dirs| && i != j && DotProduct(dirs[i], dirs[j]) < 1.0
  }

  /** `b` is the reciprocal index of direction `j`: the first index other than
      `j` with the smallest dot product, when that product is below 1, and
      otherwise index 0. */
  ghost predicate IsReciprocalIndex(dirs: seq<Vec3>, j: nat, b: nat)
    requires j < |dirs|
  {
    if HasOpposing(dirs, j) then
      && b < |dirs| && b != j
      && (forall i :: 0 <= i < |dirs| && i != j ==> DotProduct(dirs[b], dirs[j]) <= DotProduct(dirs[i], dirs[j]))
      && (forall i :: 0 <= i < b && i != j ==> DotProduct(dirs[b], dirs[j]) < DotProduct(dirs[i], dirs[j]))
    else
      b == 0
  }

  /** The reciprocal index is determined uniquely. */
  lemma ReciprocalIndexUnique(dirs: seq<Vec3>, j: nat, b1: nat, b2: nat)
    requires j < |dirs|
    requires IsReciprocalIndex(dirs, j, b1) && IsReciprocalIndex(dirs, j, b2)
    ensures b1 == b2
  {
  }

  /** A direction is never its own reciprocal when some other direction has a
      dot product with it below 1. */
  lemma ReciprocalIsAnotherDirection(dirs: seq<Vec3>, j: nat, b: nat)
    requires j < |dirs| && IsReciprocalIndex(dirs, j, b)
    requires exists i :: 0 <= i < |dirs| && i != j && DotProduct(dirs[i], dirs[j]) < 1.0
    ensures b != j && b < |dirs|
    ensures DotProduct(dirs[b], dirs[j]) < 1.0
  {
    var i :| 0 <= i < |dirs| && i != j && DotProduct(dirs[i], dirs[j]) < 1.0;
    assert DotProduct(dirs[b], dirs[j]) <= DotProduct(dirs[i], dirs[j]);
  }

  /** Direction 0 can be its own reciprocal: with parallel directions no dot
      product falls below 1, and the scan keeps its starting index 0. */
  lemma FirstDirectionCanBeItsOwnReciprocal(b: nat)
    requires IsReciprocalIndex([Vec3(1.0, 0.0, 0.0), Vec3(2.0, 0.0, 0.0)], 0, b)
    ensures b == 0
  {
    var dirs := [Vec3(1.0, 0.0, 0.0), Vec3(2.0, 0.0, 0.0)];
    assert DotProduct(dirs[1], dirs[0]) == 2.0;
    assert !HasOpposing(dirs, 0);
  }

  method GetReciprocals(scanDirs: seq<Vec3>) returns (reciprocals: seq<Vec3>, best: seq<nat>)
    ensures |reciprocals| == |best| == |scanDirs|
    ensures forall j :: 0 <= j < |scanDirs| ==> IsReciprocalIndex(scanDirs, j, best[j]) && best[j] < |scanDirs|
    ensures forall j :: 0 <= j < |scanDirs| ==> reciprocals[j] == scanDirs[best[j]]
  {
    reciprocals, best := [], [];
    var j := 0;
    while j < |scanDirs|
      invariant 0 <= j <= |scanDirs|
      invariant |reciprocals| == |best| == j
      invariant forall k :: 0 <= k < j ==> IsReciprocalIndex(scanDirs, k, best[k]) && best[k] < |scanDirs|
      invariant forall k :: 0 <= k < j ==> reciprocals[k] == scanDirs[best[k]]
    {
      var bestIndex := 0;
      var bestDot := 1.0;
      var i := 0;
      while i < |scanDirs|
        invariant 0 <= i <= |scanDirs|
        invariant bestIndex < |scanDirs|
        invariant bestDot <= 1.0
        invariant bestDot == 1.0 ==> bestIndex == 0
        invariant bestDot < 1.0 ==> bestIndex < i && bestIndex != j && bestDot == DotProduct(scanDirs[bestIndex], scanDirs[j])
        invariant forall k :: 0 <= k < i && k != j ==> bestDot <= DotProduct(scanDirs[k], scanDirs[j])
        invariant forall k :: 0 <= k < bestIndex && k != j ==> bestDot < DotProduct(scanDirs[k], scanDirs[j])
      {
        if i != j {
          var dot := DotProduct(scanDirs[i], scanDirs[j]);
          if dot < bestDot {
            bestDot := dot;
            bestIndex := i;
          }
        }
        i := i + 1;
      }
      if HasOpposing(scanDirs, j) {
        var o :| 0 <= o < |scanDirs| && o != j && DotProduct(scanDirs[o], scanDirs[j]) < 1.0;
        assert bestDot < 1.0;
      }
      reciprocals := reciprocals + [scanDirs[bestIndex]];
      best := best + [bestIndex];
      j := j + 1;
    }
  }
}
