/** The value types shared by the ReverbGen core: three-component vectors, the
    distance bin bounds, preset pairs and signatures.  Single-precision floats
    are modelled as `real`; `size_t` as an unbounded integer kept below 2^64. */
module RevGenTypes {

  /** `size_t` on a 64-bit target. */
  type SizeT = i: int | 0 <= i < 0x1_0000_0000_0000_0000

  /** The sentinel preset index: the largest `size_t`. */
  const InvalidIndex: SizeT := 0xFFFF_FFFF_FFFF_FFFF

  /** The largest finite single-precision value, (2 - 2^-23) * 2^127, exactly. */
  const FloatMax: real := 340282346638528859811704183484516925440.0

  /** A real that a finite single-precision value can stand for. */
  type FiniteFloat = r: real | -FloatMax <= r <= FloatMax

  /** A 3-component vector; a default-constructed one is all zero. */
  datatype Vec3 = Vec3(x: real, y: real, z: real) {

    /** Assigns the three components, and nothing else. */
    function Set(x': real, y': real, z': real): (v: Vec3)
      ensures v.x == x' && v.y == y' && v.z == z'
      ensures v == Vec3(x', y', z')
    {
      this.(x := x', y := y', z := z')
    }

    /** Unary minus: a default vector set to the negated components. */
    function Neg(): (v: Vec3)
      ensures v.x == -x && v.y == -y && v.z == -z
    {
      DefaultVec3.Set(-x, -y, -z)
    }
  }

  const DefaultVec3: Vec3 := Vec3(0.0, 0.0, 0.0)

  /** The dot product: a vector with itself never scores below 0, and the
      zero vector scores 0 against anything. */
  function DotProduct(a: Vec3, b: Vec3): (r: real)
    ensures a == b ==> r >= 0.0
    ensures a == DefaultVec3 || b == DefaultVec3 ==> r == 0.0
  {
    a.x * b.x + a.y * b.y + a.z * b.z
  }

  lemma DotProductSymmetric(a: Vec3, b: Vec3)
    ensures DotProduct(a, b) == DotProduct(b, a)
  {
  }

  lemma DotProductNegLeft(a: Vec3, b: Vec3)
    ensures DotProduct(a.Neg(), b) == -DotProduct(a, b)
  {
  }

  /** The upper bounds of the eleven distance bins. */
  const DistanceBinValues: seq<real> :=
    [2.0, 4.0, 8.0, 16.0, 32.0, 64.0, 128.0, 256.0, 512.0, 1024.0, FloatMax]

  const DistBinCount: nat := 11
  const AbsCoeffCount: nat := 10

  lemma DistanceBinValuesShape()
    ensures |DistanceBinValues| == DistBinCount
    ensures forall i, k :: 0 <= i < k < |DistanceBinValues| ==> DistanceBinValues[i] < DistanceBinValues[k]
    ensures DistanceBinValues[DistBinCount - 1] == FloatMax
  {
  }

  /** Every finite distance lies at or below the last bin bound. */
  lemma FiniteDistanceInLastBin(d: FiniteFloat)
    ensures d <= DistanceBinValues[DistBinCount - 1]
  {
  }

  function Zeros(n: nat): seq<real>
  {
    seq(n, _ => 0.0)
  }

  /** `std::array<float, 11>`, one entry per distance bin. */
  type DistArray = s: seq<real> | |s| == 11 witness Zeros(11)

  /** `std::array<float, 10>`, one entry per absorption-coefficient bin. */
  type AbsCoeffArray = s: seq<real> | |s| == 10 witness Zeros(10)

  datatype PresetPair = PresetPair(presetIndexA: SizeT, presetIndexB: SizeT, ratio: real)

  /** A default-constructed preset pair: primary 0, no secondary, fully primary. */
  const DefaultPresetPair: PresetPair := PresetPair(0, InvalidIndex, 1.0)

  datatype SignatureData = SignatureData(presetIndex: SizeT, distances: DistArray, absorbCoeffs: AbsCoeffArray)

  /** A default-constructed signature: no preset and value-initialised (zero) arrays. */
  const DefaultSignature: SignatureData := SignatureData(InvalidIndex, Zeros(11), Zeros(10))

  lemma DefaultsAsDeclared()
    ensures DefaultPresetPair.presetIndexA == 0 && DefaultPresetPair.presetIndexB == InvalidIndex
    ensures DefaultPresetPair.ratio == 1.0
    ensures DefaultSignature.presetIndex == InvalidIndex
    ensures |DefaultSignature.distances| == DistBinCount == |DistanceBinValues|
    ensures |DefaultSignature.absorbCoeffs| == AbsCoeffCount
    ensures forall i :: 0 <= i < DistBinCount ==> DefaultSignature.distances[i] == 0.0
    ensures forall i :: 0 <= i < AbsCoeffCount ==> DefaultSignature.absorbCoeffs[i] == 0.0
    ensures DefaultVec3.x == 0.0 && DefaultVec3.y == 0.0 && DefaultVec3.z == 0.0
  {
  }
}
