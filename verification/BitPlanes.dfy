/**
 * Progressive bit-planes of a CDF 5/3 tile.
 *
 * A tile's 3072 coefficients travel as 14 planes: plane 0 holds signs, planes
 * 1..13 hold magnitude bits 12..0. Planes that are all zero are not sent.
 */
module BitPlanes {
  import opened Bytes

  const PASS_COUNT: nat := 14
  const COEFFS: nat := 3072
  const PLANE_BYTES: nat := 384

  type Plane = seq<byte>

  const ZERO_PLANE: Plane := seq(PLANE_BYTES, _ => 0)

  function Abs(x: int): nat { if x < 0 then -x else x }

  /** Bit of coefficient `c`; a plane too short for it reads as zero. */
  predicate PlaneBit(plane: Plane, c: nat) {
    c / 8 < |plane| && BitAt(plane[c / 8], c % 8)
  }

  // ---------------------------------------------------------------- decoding

  function Magnitude(planes: seq<Plane>, c: nat): nat
    requires |planes| <= PASS_COUNT
  {
    if |planes| <= 1 then 0 else
      var k := |planes| - 1;
      Magnitude(planes[..k], c) + if PlaneBit(planes[k], c) then Pow2(13 - k) else 0
  }

  /** Half of the range the missing planes leave open; nothing is added at 0, 1 or 14 planes. */
  function Midpoint(k: nat): nat { if 2 <= k < PASS_COUNT then Pow2(13 - k) else 0 }

  /** Midpoint correction, the `i16` ceiling and the sign. */
  function Signed(m: int, negative: bool, k: nat): int {
    var widened := if m != 0 then m + Midpoint(k) else m;
    var mag := if widened < 32767 then widened else 32767;
    if negative then -mag else mag
  }

  function Coefficient(planes: seq<Plane>, c: nat): int
    requires |planes| <= PASS_COUNT
  {
    Signed(Magnitude(planes, c), |planes| > 0 && PlaneBit(planes[0], c), |planes|)
  }

  function DecodePlanes(planes: seq<Plane>): (r: seq<int>)
    requires |planes| <= PASS_COUNT
    ensures |r| == COEFFS
  {
    seq(COEFFS, c requires 0 <= c < COEFFS => Coefficient(planes, c))
  }

  predicate AllZero(coefficients: seq<int>) {
    forall c :: 0 <= c < |coefficients| ==> coefficients[c] == 0
  }

  /** A coefficient is non-zero exactly when some magnitude plane has its bit. */
  lemma {:induction false} NonZeroIffBit(planes: seq<Plane>, c: nat)
    requires |planes| <= PASS_COUNT
    ensures Coefficient(planes, c) != 0 <==> exists p :: 1 <= p < |planes| && PlaneBit(planes[p], c)
    ensures Coefficient(planes, c) != 0 <==> Magnitude(planes, c) != 0
  {
    if |planes| <= 1 {
    } else {
      var k := |planes| - 1;
      NonZeroIffBit(planes[..k], c);
      assert forall p :: 1 <= p < k ==> planes[..k][p] == planes[p];
    }
  }

  /** No coefficient has its bit in the plane. */
  predicate Blank(plane: Plane) { forall c :: 0 <= c < COEFFS ==> !PlaneBit(plane, c) }

  /** `b` has at least the planes of `a`, and in each at least its bits. */
  predicate MoreBits(a: seq<Plane>, b: seq<Plane>) {
    |a| <= |b| && forall p, c :: 0 <= p < |a| && 0 <= c < COEFFS && PlaneBit(a[p], c) ==> PlaneBit(b[p], c)
  }

  /**
   * Planes that show something still show something when more planes or more
   * bits join them: a set magnitude bit is never taken back.
   */
  lemma NonZeroGrows(a: seq<Plane>, b: seq<Plane>)
    requires MoreBits(a, b) && |b| <= PASS_COUNT && !AllZero(DecodePlanes(a))
    ensures !AllZero(DecodePlanes(b))
  {
    var c :| 0 <= c < COEFFS && DecodePlanes(a)[c] != 0;
    NonZeroIffBit(a, c);
    NonZeroIffBit(b, c);
    var p :| 1 <= p < |a| && PlaneBit(a[p], c);
    assert PlaneBit(b[p], c);
    assert DecodePlanes(b)[c] != 0;
  }

  lemma {:induction false} SameMagnitude(a: seq<Plane>, b: seq<Plane>, c: nat)
    requires |a| == |b| <= PASS_COUNT && forall p :: 0 <= p < |a| ==> (PlaneBit(a[p], c) <==> PlaneBit(b[p], c))
    ensures Magnitude(a, c) == Magnitude(b, c)
  {
    if |a| <= 1 {
    } else {
      var k := |a| - 1;
      SameMagnitude(a[..k], b[..k], c);
    }
  }

  /** Decoding looks at the bits and at nothing else. */
  lemma SameBitsDecode(a: seq<Plane>, b: seq<Plane>)
    requires |a| == |b| <= PASS_COUNT && MoreBits(a, b) && MoreBits(b, a)
    ensures DecodePlanes(a) == DecodePlanes(b)
  {
    forall c | 0 <= c < COEFFS
      ensures Coefficient(a, c) == Coefficient(b, c)
    {
      SameMagnitude(a, b, c);
    }
  }

  lemma ZeroPlaneIsBlank()
    ensures Blank(ZERO_PLANE)
  {
    forall c | 0 <= c < COEFFS
      ensures !PlaneBit(ZERO_PLANE, c)
    {
      ShiftZero(c % 8);
    }
  }

  /** The arrays hold what the first `p` planes say about coefficients `lo..hi`. */
  ghost predicate Holds(magnitudes: array<int>, signs: array<bool>, planes: seq<Plane>, p: nat, lo: nat, hi: nat)
    requires p <= |planes| <= PASS_COUNT && hi <= magnitudes.Length == signs.Length
    reads magnitudes, signs
  {
    && (forall c :: lo <= c < hi ==> magnitudes[c] == Magnitude(planes[..p], c))
    && (forall c :: lo <= c < hi ==> (signs[c] <==> p > 0 && PlaneBit(planes[0], c)))
  }

  lemma MagnitudeStep(planes: seq<Plane>, p: nat, c: nat)
    requires p < |planes| <= PASS_COUNT
    ensures Magnitude(planes[..p + 1], c)
         == Magnitude(planes[..p], c) + if p > 0 && PlaneBit(planes[p], c) then Pow2(13 - p) else 0
  {
    assert planes[..p + 1][..p] == planes[..p];
  }

  /** The coefficients below `c` hold `p + 1` planes, the others `p`. */
  ghost predicate HoldsUpTo(magnitudes: array<int>, signs: array<bool>, planes: seq<Plane>, p: nat, c: nat)
    requires p < |planes| <= PASS_COUNT && c <= COEFFS == magnitudes.Length == signs.Length
    reads magnitudes, signs
  {
    Holds(magnitudes, signs, planes, p + 1, 0, c) && Holds(magnitudes, signs, planes, p, c, COEFFS)
  }

  /** One bit of the plane, at byte `at`. */
  method AddBit(magnitudes: array<int>, signs: array<bool>, planes: seq<Plane>, p: nat, c: nat, at: nat)
    requires p < |planes| <= PASS_COUNT && c < COEFFS == magnitudes.Length == signs.Length && at == c / 8
    requires HoldsUpTo(magnitudes, signs, planes, p, c)
    modifies magnitudes, signs
    ensures HoldsUpTo(magnitudes, signs, planes, p, c + 1)
  {
    hide Magnitude, Pow2, BitAt;
    MagnitudeStep(planes, p, c);
    if at < |planes[p]| && BitAt(planes[p][at], c % 8) {
      if p == 0 {
        signs[c] := true;
      } else {
        // The bit is not set yet (each plane sets its own), so `|=` adds it.
        magnitudes[c] := magnitudes[c] + Pow2(13 - p);
      }
    }
  }

  /** One plane of the decoding loops: channels, then coefficients. */
  method AddPlane(magnitudes: array<int>, signs: array<bool>, planes: seq<Plane>, p: nat)
    requires p < |planes| <= PASS_COUNT && magnitudes.Length == signs.Length == COEFFS
    requires Holds(magnitudes, signs, planes, p, 0, COEFFS)
    modifies magnitudes, signs
    ensures Holds(magnitudes, signs, planes, p + 1, 0, COEFFS)
  {
    hide Holds;
    assert HoldsUpTo(magnitudes, signs, planes, p, 0) by { NoneYet(magnitudes, signs, planes, p); }
    for ch := 0 to 3
      invariant HoldsUpTo(magnitudes, signs, planes, p, ch * 1024)
    {
      for i := 0 to 1024
        invariant HoldsUpTo(magnitudes, signs, planes, p, ch * 1024 + i)
      {
        AddBit(magnitudes, signs, planes, p, ch * 1024 + i, ch * 128 + i / 8);
      }
    }
  }

  lemma NoneYet(magnitudes: array<int>, signs: array<bool>, planes: seq<Plane>, p: nat)
    requires p < |planes| <= PASS_COUNT && magnitudes.Length == signs.Length == COEFFS
    ensures Holds(magnitudes, signs, planes, p + 1, 0, 0)
  {
  }

  method DecodePlanesLoop(planes: seq<Plane>) returns (coefficients: seq<int>)
    requires |planes| <= PASS_COUNT
    ensures coefficients == DecodePlanes(planes)
  {
    var magnitudes := new int[COEFFS](_ => 0);
    var signs := new bool[COEFFS](_ => false);
    for p := 0 to |planes|
      invariant Holds(magnitudes, signs, planes, p, 0, COEFFS)
    {
      AddPlane(magnitudes, signs, planes, p);
    }
    assert planes[..|planes|] == planes;
    coefficients := seq(COEFFS, c requires 0 <= c < COEFFS reads magnitudes, signs =>
      Signed(magnitudes[c], signs[c], |planes|));
  }

  // ---------------------------------------------------------------- encoding

  /** Bit of `coefficient` that pass `p` carries. */
  predicate CoefficientBit(coefficient: int, p: nat)
    requires p < PASS_COUNT
  {
    if p == 0 then coefficient < 0 else BitAt(Abs(coefficient), 13 - p)
  }

  function ExtractPlane(coefficients: seq<int>, p: nat): (plane: Plane)
    requires |coefficients| == COEFFS && p < PASS_COUNT
    ensures |plane| == PLANE_BYTES
    ensures forall c :: 0 <= c < COEFFS ==> (PlaneBit(plane, c) <==> CoefficientBit(coefficients[c], p))
  {
    seq(PLANE_BYTES, b requires 0 <= b < PLANE_BYTES => PackPlaneByte(coefficients, p, b))
  }

  function PackPlaneByte(coefficients: seq<int>, p: nat, b: nat): (r: byte)
    requires |coefficients| == COEFFS && p < PASS_COUNT && b < PLANE_BYTES
    ensures forall j :: 0 <= j < 8 ==> (BitAt(r, j) <==> CoefficientBit(coefficients[8 * b + j], p))
  {
    assert Pow2(8) == 256;
    var bits := seq(8, j requires 0 <= j < 8 => CoefficientBit(coefficients[8 * b + j], p));
    assert forall j :: 0 <= j < 8 ==> (BitAt(PackBits(bits), j) <==> bits[j]) by {
      forall j | 0 <= j < 8 ensures BitAt(PackBits(bits), j) <==> bits[j] { PackedBit(bits, j); }
    }
    PackBits(bits)
  }

  /** Pass `p` has a set bit somewhere. */
  ghost predicate HasBit(coefficients: seq<int>, p: nat)
    requires |coefficients| == COEFFS && p < PASS_COUNT
  {
    exists c :: 0 <= c < COEFFS && CoefficientBit(coefficients[c], p)
  }

  /** The passes a sparse encoder sends: pass 0 always, another when it has a set bit. */
  ghost function SparsePasses(coefficients: seq<int>): set<nat>
    requires |coefficients| == COEFFS
  {
    {0} + set p | 0 <= p < PASS_COUNT && HasBit(coefficients, p)
  }

  /** `planes` carries every bit of `coefficients`. */
  predicate Carries(planes: seq<Plane>, coefficients: seq<int>)
    requires |coefficients| == COEFFS
  {
    && |planes| == PASS_COUNT
    && forall p, c :: 0 <= p < PASS_COUNT && 0 <= c < COEFFS ==>
         (PlaneBit(planes[p], c) <==> CoefficientBit(coefficients[c], p))
  }

  /** What the planes before `k` know of a magnitude below 2^13: all bits from 14 - k up. */
  lemma {:induction false} MagnitudeTruncates(planes: seq<Plane>, coefficients: seq<int>, c: nat, k: nat)
    requires |coefficients| == COEFFS && Carries(planes, coefficients)
    requires c < COEFFS && Abs(coefficients[c]) < 8192
    requires 1 <= k <= PASS_COUNT
    ensures Magnitude(planes[..k], c) == Shift(Abs(coefficients[c]), 14 - k) * Pow2(14 - k)
  {
    var m := Abs(coefficients[c]);
    if k == 1 {
      ShiftBound(m, 13);
      assert Pow2(13) == 8192;
    } else {
      MagnitudeTruncates(planes, coefficients, c, k - 1);
      assert planes[..k][..k - 1] == planes[..k - 1];
      var q, w := Shift(m, 14 - k), Pow2(14 - k);
      assert Shift(m, 15 - k) == q / 2 && Pow2(15 - k) == 2 * w;
      assert PlaneBit(planes[k - 1], c) <==> q % 2 == 1;
      HalvingStep(q, w);
    }
  }

  lemma HalvingStep(q: nat, w: nat)
    ensures q / 2 * (2 * w) + (if q % 2 == 1 then w else 0) == q * w
  {
    var h, b := q / 2, q % 2;
    assert q * w == (2 * h + b) * w == h * (2 * w) + b * w;
  }

  /** A number lies less than `w` above the multiple of `w` its quotient names. */
  lemma {:induction false} ShiftBelow(m: nat, i: nat)
    ensures Shift(m, i) * Pow2(i) <= m < Shift(m, i) * Pow2(i) + Pow2(i)
  {
    if i == 0 {
    } else {
      ShiftBelow(m, i - 1);
      HalvingStep(Shift(m, i - 1), Pow2(i - 1));
    }
  }

  /**
   * Where a partial decode puts a coefficient. The first `k` planes leave an interval
   * of 2^(14 - k) magnitudes, the true one among them. A coefficient whose interval
   * starts at zero stays zero; any other is put in the middle of its interval, on its
   * own side of zero, and so is off by at most half the interval.
   */
  lemma PartialDecode(planes: seq<Plane>, coefficients: seq<int>, c: nat, k: nat)
    requires |coefficients| == COEFFS && Carries(planes, coefficients)
    requires c < COEFFS && Abs(coefficients[c]) < 8192 && 2 <= k < PASS_COUNT
    ensures var v, lo, w := Coefficient(planes[..k], c), Magnitude(planes[..k], c), Pow2(14 - k);
            && lo <= Abs(coefficients[c]) < lo + w
            && (lo == 0 ==> v == 0)
            && (lo != 0 ==>
                  && 2 * Abs(v) == lo + (lo + w) && (v < 0 <==> coefficients[c] < 0)
                  && Abs(v - coefficients[c]) <= Pow2(13 - k))
  {
    var m := Abs(coefficients[c]);
    MagnitudeTruncates(planes, coefficients, c, k);
    ShiftBelow(m, 14 - k);
    assert Pow2(14 - k) == 2 * Pow2(13 - k);
    assert Pow2(13 - k) <= 2048 by { PowAtMost(13 - k); }
    assert planes[..k][0] == planes[0];
    assert PlaneBit(planes[0], c) <==> CoefficientBit(coefficients[c], 0);
  }

  lemma {:induction false} PowAtMost(i: nat)
    requires i <= 11
    ensures Pow2(i) <= 2048
    decreases 11 - i
  {
    if i == 11 {
    } else {
      PowAtMost(i + 1);
    }
  }

  /** All 14 planes give back every coefficient whose magnitude has 13 bits. */
  lemma DecodeInvertsExtract(planes: seq<Plane>, coefficients: seq<int>)
    requires |coefficients| == COEFFS && Carries(planes, coefficients)
    requires forall c :: 0 <= c < COEFFS ==> Abs(coefficients[c]) < 8192
    ensures DecodePlanes(planes) == coefficients
  {
    forall c | 0 <= c < COEFFS
      ensures Coefficient(planes, c) == coefficients[c]
    {
      MagnitudeTruncates(planes, coefficients, c, PASS_COUNT);
      assert planes[..PASS_COUNT] == planes;
      assert PlaneBit(planes[0], c) <==> CoefficientBit(coefficients[c], 0);
    }
  }

  /** A pass the sparse encoder leaves out has no bit to carry. */
  lemma UnsentIsBlank(coefficients: seq<int>, p: nat)
    requires |coefficients| == COEFFS && p < PASS_COUNT && p !in SparsePasses(coefficients)
    ensures Blank(ExtractPlane(coefficients, p))
  {
    forall c | 0 <= c < COEFFS
      ensures !PlaneBit(ExtractPlane(coefficients, p), c)
    {
      assert !CoefficientBit(coefficients[c], p);
    }
  }

  /** A plane never sent is all zero, so a zero plane stands in for it losslessly. */
  lemma ZeroPlaneStandsIn(planes: seq<Plane>, coefficients: seq<int>)
    requires |coefficients| == COEFFS && |planes| == PASS_COUNT
    requires forall p :: 0 <= p < PASS_COUNT ==>
      planes[p] == if p in SparsePasses(coefficients) then ExtractPlane(coefficients, p) else ZERO_PLANE
    ensures Carries(planes, coefficients)
  {
    hide PlaneBit, CoefficientBit, ExtractPlane;
    forall p, c | 0 <= p < PASS_COUNT && 0 <= c < COEFFS
      ensures PlaneBit(planes[p], c) <==> CoefficientBit(coefficients[c], p)
    {
      if p !in SparsePasses(coefficients) { ZeroPlaneIsBlank(); }
    }
  }

}
