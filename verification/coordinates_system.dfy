/**
 * The coordinate-system record (StCoordinatesSystem) and the axis tag
 * (StCoordType).
 *
 * Every decimal quantity of the source (coordinates, axis origins, the
 * tolerance) is represented here as an integer count of resolution units,
 * so the resolution itself is the unit 1 and `ByteFactors[i] / Resolution`
 * becomes the natural number `Scale(byteCoeff, i)`.
 */
module CoordinatesSystems {
  import opened Errors

  /** An unsigned 8-bit value, as held in the .NET byte arrays of a payload. */
  type byte = b: int | 0 <= b < 256

  /** The axis a coordinate belongs to; each axis has its own origin. */
  datatype CoordType = X | Y | Z | M

  /** An axis upper bound: a configured value, or Decimal.MaxValue when none was given. */
  datatype Bound = Bounded(units: int) | DecimalMaxValue

  /**
   * The encoding space. `minZ` is `None` when the system was built without a Z
   * origin, in which case it does not support Z coordinates at all.
   */
  datatype CoordinatesSystem = CoordinatesSystem(
    srid: int,
    sridName: string,
    tolerance: int,
    minX: int, maxX: Bound,
    minY: int, maxY: Bound,
    minZ: Option<int>, maxZ: Bound,
    byteCoeff: seq<byte>,
    restartValue: byte)

  /** The per-level radii used when none are supplied. */
  const DefaultByteCoeff: seq<byte> := [1, 64, 128, 128, 128, 128, 128, 128, 128]

  /** The continuation marker used when none is supplied. */
  const DefaultRestartValue: byte := 128

  /** The tolerance used when none is supplied: ten resolution units. */
  const DefaultTolerance: int := 10

  /**
   * The weight, in resolution units, of one digit at level `i`: level 0 is worth
   * one unit, and one digit of level `i` is worth `coeff[i]` digits of level `i - 1`.
   */
  function Scale(coeff: seq<byte>, i: nat): nat
    requires i < |coeff|
  {
    if i == 0 then 1 else Scale(coeff, i - 1) * coeff[i]
  }

  /** The product of a run of radii. */
  function Product(s: seq<byte>): nat
  {
    if s == [] then 1 else Product(s[..|s| - 1]) * s[|s| - 1]
  }

  /** The scale of level `i` is the product of the radii of levels 1 through `i` (coeff[0] plays no part). */
  lemma {:induction false} ScaleIsProduct(coeff: seq<byte>, i: nat)
    requires i < |coeff|
    ensures Scale(coeff, i) == Product(coeff[1..i + 1])
  {
    if i > 0 {
      ScaleIsProduct(coeff, i - 1);
      assert coeff[1..i + 1][..i - 1] == coeff[1..i];
    }
  }

  /**
   * The derived ByteFactors array, in resolution units: one entry per radius,
   * the first worth one resolution, each later one `coeff[i]` times the previous.
   * An empty radius array makes the first write fail.
   */
  function ByteFactors(coeff: seq<byte>): (r: Result<seq<nat>>)
    ensures r.Ok? <==> |coeff| > 0
    ensures r.Err? ==> r.error == IndexOutOfRangeException
    ensures r.Ok? ==> |r.value| == |coeff| && r.value[0] == 1
    ensures r.Ok? ==> forall i :: 1 <= i < |coeff| ==> r.value[i] == r.value[i - 1] * coeff[i]
  {
    if |coeff| == 0 then Err(IndexOutOfRangeException)
    else Ok(seq(|coeff|, i requires 0 <= i < |coeff| => Scale(coeff, i)))
  }

  /** With every radius above 1, the factors grow strictly from level to level. */
  lemma {:induction false} ScaleStrictlyIncreasing(coeff: seq<byte>, i: nat, j: nat)
    requires i < j < |coeff|
    requires forall k :: 1 <= k < |coeff| ==> coeff[k] >= 2
    ensures Scale(coeff, i) < Scale(coeff, j)
  {
    ScalePositive(coeff, j - 1);
    MoreThanDoubled(Scale(coeff, j - 1), coeff[j] as nat);
    if i < j - 1 {
      ScaleStrictlyIncreasing(coeff, i, j - 1);
    }
  }

  /** A positive weight times a radius above 1 grows. */
  lemma MoreThanDoubled(s: nat, c: nat)
    requires s >= 1 && c >= 2
    ensures s < s * c
  {
    assert s * c == s + s * (c - 1);
  }

  /** With no zero radius, every level has a positive weight. */
  lemma {:induction false} ScalePositive(coeff: seq<byte>, i: nat)
    requires i < |coeff|
    requires forall k :: 1 <= k < |coeff| ==> coeff[k] >= 1
    ensures Scale(coeff, i) >= 1
  {
    if i > 0 {
      ScalePositive(coeff, i - 1);
      assert Scale(coeff, i) == Scale(coeff, i - 1) * coeff[i] >= Scale(coeff, i - 1) * 1;
    }
  }

  /**
   * The constructor: absent optional arguments take their defaults. The source
   * performs no validation beyond the first write into the factor array.
   */
  function NewCoordinatesSystem(
    srid: int, sridName: string, tolerance: Option<int>,
    minX: int, maxX: Option<int>, minY: int, maxY: Option<int>,
    minZ: Option<int>, maxZ: Option<int>,
    byteCoeff: Option<seq<byte>>, restartValue: Option<byte>): (r: Result<CoordinatesSystem>)
    ensures r.Ok? <==> (byteCoeff.None? || |byteCoeff.value| > 0)
    ensures r.Err? ==> r.error == IndexOutOfRangeException
    ensures r.Ok? ==> r.value.srid == srid && r.value.sridName == sridName && r.value.minX == minX && r.value.minY == minY
    ensures r.Ok? ==> r.value.tolerance == (if tolerance.Some? then tolerance.value else DefaultTolerance)
    ensures r.Ok? ==> (maxX.None? <==> r.value.maxX == DecimalMaxValue)
    ensures r.Ok? ==> (maxY.None? <==> r.value.maxY == DecimalMaxValue)
    ensures r.Ok? ==> (maxZ.None? <==> r.value.maxZ == DecimalMaxValue)
    ensures r.Ok? && maxX.Some? ==> r.value.maxX == Bounded(maxX.value)
    ensures r.Ok? && maxY.Some? ==> r.value.maxY == Bounded(maxY.value)
    ensures r.Ok? && maxZ.Some? ==> r.value.maxZ == Bounded(maxZ.value)
    ensures r.Ok? ==> r.value.minZ == minZ
    ensures r.Ok? ==> r.value.byteCoeff == (if byteCoeff.Some? then byteCoeff.value else DefaultByteCoeff)
    ensures r.Ok? ==> r.value.restartValue == (if restartValue.Some? then restartValue.value else DefaultRestartValue)
  {
    var coeff := if byteCoeff.Some? then byteCoeff.value else DefaultByteCoeff;
    var factors :- ByteFactors(coeff);
    Ok(CoordinatesSystem(
      srid, sridName,
      if tolerance.Some? then tolerance.value else DefaultTolerance,
      minX, OrMax(maxX),
      minY, OrMax(maxY),
      minZ, OrMax(maxZ),
      coeff,
      if restartValue.Some? then restartValue.value else DefaultRestartValue))
  }

  /**
   * A system built without coefficients or marker is one the codec laws apply
   * to: it is regular, and its origins are the minima it was given, with Z
   * present exactly when a minimum Z was.
   */
  lemma ConstructedIsRegular(
    srid: int, sridName: string, tolerance: Option<int>,
    minX: int, maxX: Option<int>, minY: int, maxY: Option<int>,
    minZ: Option<int>, maxZ: Option<int>)
    ensures var r := NewCoordinatesSystem(srid, sridName, tolerance, minX, maxX, minY, maxY, minZ, maxZ, None, None);
      && r.Ok? && Regular(r.value)
      && GetMin(r.value, X) == Ok(minX) && GetMin(r.value, Y) == Ok(minY)
      && (GetMin(r.value, Z).Ok? <==> minZ.Some?)
      && (minZ.Some? ==> GetMin(r.value, Z) == Ok(minZ.value))
  {
    var r := NewCoordinatesSystem(srid, sridName, tolerance, minX, maxX, minY, maxY, minZ, maxZ, None, None);
    DefaultsAreRegular(r.value);
  }

  function OrMax(v: Option<int>): Bound
  {
    if v.Some? then Bounded(v.value) else DecimalMaxValue
  }

  /**
   * The origin of an axis: the configured minimum of X or Y, the minimum of Z
   * only when one was configured, and an ArgumentException for M.
   */
  function GetMin(cs: CoordinatesSystem, axis: CoordType): (r: Result<int>)
    ensures r.Ok? <==> (axis == X || axis == Y || (axis == Z && cs.minZ.Some?))
    ensures r.Err? ==> r.error == ArgumentException
    ensures axis == X ==> r == Ok(cs.minX)
    ensures axis == Y ==> r == Ok(cs.minY)
    ensures axis == Z && r.Ok? ==> r.value == cs.minZ.value
  {
    match axis
    case X => Ok(cs.minX)
    case Y => Ok(cs.minY)
    case Z => if cs.minZ.None? then Err(ArgumentException) else Ok(cs.minZ.value)
    case M => Err(ArgumentException)
  }

  /**
   * The systems for which the byte layout is unambiguous: at least two levels,
   * a restart marker that sets the top bit, nonzero radii, and room in a byte
   * for a marked digit and, at level 0, for the sign flag on top of it. The
   * default radii and marker are regular.
   */
  predicate Regular(cs: CoordinatesSystem)
  {
    var c := cs.byteCoeff;
    var r: int := cs.restartValue;
    && |c| >= 2
    && r >= 128
    && 1 <= c[1] && r + 2 * (c[1] as int) <= 256
    && forall i :: 2 <= i < |c| ==> 1 <= c[i] && r + (c[i] as int) <= 256
  }

  /**
   * The exclusive bound on the distance from an axis origin that the codec
   * round-trips: the weight of the top level, whose digit the decoder cannot
   * read back.
   */
  function Capacity(cs: CoordinatesSystem): nat
    requires |cs.byteCoeff| >= 1
  {
    Scale(cs.byteCoeff, |cs.byteCoeff| - 1)
  }

  /** A value the codec encodes and decodes losslessly on `axis`. */
  predicate InRange(cs: CoordinatesSystem, v: int, axis: CoordType)
  {
    && |cs.byteCoeff| >= 1
    && axis != M
    && GetMin(cs, axis).Ok?
    && var cap: int := Capacity(cs);
       -cap < v - GetMin(cs, axis).value < cap
  }

  /** Every system built with the default radii and marker is regular. */
  lemma DefaultsAreRegular(cs: CoordinatesSystem)
    requires cs.byteCoeff == DefaultByteCoeff && cs.restartValue == DefaultRestartValue
    ensures Regular(cs)
  {
  }

  /** The default factors: 1, 64, then a factor 128 per further level. */
  lemma DefaultFactors()
    ensures ByteFactors(DefaultByteCoeff)
         == Ok([1, 64, 8192, 1048576, 134217728, 17179869184, 2199023255552, 281474976710656, 36028797018963968])
  {
    var c := DefaultByteCoeff;
    assert Scale(c, 1) == 64;
    assert Scale(c, 2) == 8192;
    assert Scale(c, 3) == 1048576;
    assert Scale(c, 4) == 134217728;
    assert Scale(c, 5) == 17179869184;
    assert Scale(c, 6) == 2199023255552;
    assert Scale(c, 7) == 281474976710656;
    assert Scale(c, 8) == 36028797018963968;
    var f := ByteFactors(c).value;
    assert f == seq(9, i requires 0 <= i < 9 => Scale(c, i));
    assert f == [1, 64, 8192, 1048576, 134217728, 17179869184, 2199023255552, 281474976710656, 36028797018963968];
  }
}
