/**
 * The difference runs of StCoordinatesSystemHelper: a coordinate of a
 * polyline after the first is stored as its difference to the previous
 * coordinate, written like a value relative to the axis origin, and read back
 * by adding the previous value again. Both directions are stated against the
 * codec laws of CoordinatesSystemHelperLaws.
 */
module CoordinateDifferences {
  import opened Errors
  import opened CoordinatesSystems
  import opened CoordinatesSystemHelper
  import opened CoordinatesSystemHelperLaws

  /**
   * Rebuilds the absolute run of a coordinate from the run of its difference to
   * the previous coordinate: the previous distance from the origin plus the
   * decoded difference, encoded again. In a regular system, when that sum is
   * within capacity, the result is a complete run decoding to it.
   */
  function GetBytesFromDifference(cs: CoordinatesSystem, initialBytes: seq<byte>, previousBytes: seq<byte>, axis: CoordType): (res: Result<seq<byte>>)
    ensures axis == M ==> res == Err(NotSupportedException)
    ensures GetValueFromBytes(cs, initialBytes, axis).Err? ==> res == Err(GetValueFromBytes(cs, initialBytes, axis).error)
    ensures GetValueFromBytes(cs, initialBytes, axis).Ok? && GetValueFromBytes(cs, previousBytes, axis).Err?
            ==> res == Err(GetValueFromBytes(cs, previousBytes, axis).error)
    ensures res.Ok? ==> GetValueFromBytes(cs, initialBytes, axis).Ok? && GetValueFromBytes(cs, previousBytes, axis).Ok?
    ensures Regular(cs) && GetValueFromBytes(cs, initialBytes, axis).Ok? && GetValueFromBytes(cs, previousBytes, axis).Ok?
            && InRange(cs, Rebuilt(cs, initialBytes, previousBytes, axis), axis)
            ==> RunOfValue(cs, res, Rebuilt(cs, initialBytes, previousBytes, axis), axis)
  {
    var encodedDifference := GetValueFromBytes(cs, initialBytes, axis);
    var valuePrevious := GetValueFromBytes(cs, previousBytes, axis);
    if encodedDifference.Err? then Err(encodedDifference.error)
    else if valuePrevious.Err? then Err(valuePrevious.error)
    else
      // Both runs decoded, so the axis has an origin: the previous distance
      // from it plus the decoded difference.
      var v := Rebuilt(cs, initialBytes, previousBytes, axis);
      EncodedRunOf(cs, v, axis);
      GetBytesFromValue(cs, v, axis)
  }

  /**
   * The run stored for a coordinate of a polyline after the first: the
   * difference to the previous coordinate, encoded as a value relative to the
   * axis origin. In a regular system, when origin plus difference is within
   * capacity, the result is a complete run decoding to it.
   */
  function GetDifferenceFromBytes(cs: CoordinatesSystem, initialBytes: seq<byte>, previousBytes: seq<byte>, axis: CoordType): (res: Result<seq<byte>>)
    ensures axis == M ==> res == Err(NotSupportedException)
    ensures GetValueFromBytes(cs, initialBytes, axis).Err? ==> res == Err(GetValueFromBytes(cs, initialBytes, axis).error)
    ensures GetValueFromBytes(cs, initialBytes, axis).Ok? && GetValueFromBytes(cs, previousBytes, axis).Err?
            ==> res == Err(GetValueFromBytes(cs, previousBytes, axis).error)
    ensures res.Ok? ==> GetValueFromBytes(cs, initialBytes, axis).Ok? && GetValueFromBytes(cs, previousBytes, axis).Ok?
    ensures Regular(cs) && GetValueFromBytes(cs, initialBytes, axis).Ok? && GetValueFromBytes(cs, previousBytes, axis).Ok?
            && InRange(cs, Difference(cs, initialBytes, previousBytes, axis), axis)
            ==> RunOfValue(cs, res, Difference(cs, initialBytes, previousBytes, axis), axis)
  {
    var initialRealValue := GetValueFromBytes(cs, initialBytes, axis);
    var previousValue := GetValueFromBytes(cs, previousBytes, axis);
    if initialRealValue.Err? then Err(initialRealValue.error)
    else if previousValue.Err? then Err(previousValue.error)
    else
      // Both runs decoded, so the axis has an origin: the origin plus the
      // difference of the two values.
      var v := Difference(cs, initialBytes, previousBytes, axis);
      EncodedRunOf(cs, v, axis);
      GetBytesFromValue(cs, v, axis)
  }

  /** In a regular system, the run of an in-range value is complete, short, and decodes to the value. */
  lemma EncodedRunOf(cs: CoordinatesSystem, v: int, axis: CoordType)
    ensures Regular(cs) && InRange(cs, v, axis) ==> RunOfValue(cs, GetBytesFromValue(cs, v, axis), v, axis)
  {
    if Regular(cs) && InRange(cs, v, axis) {
      var _ := RunOf(cs, v, axis);
    }
  }

  /** `res` is a complete run, shorter than the radius array, that decodes to `v`. */
  predicate RunOfValue(cs: CoordinatesSystem, res: Result<seq<byte>>, v: int, axis: CoordType)
  {
    res.Ok? && Terminated(res.value) && |res.value| < |cs.byteCoeff| && GetValueFromBytes(cs, res.value, axis) == Ok(v)
  }

  /** The value a difference run stands for: the origin plus (current − previous). */
  function Difference(cs: CoordinatesSystem, current: seq<byte>, previous: seq<byte>, axis: CoordType): int
    requires GetValueFromBytes(cs, current, axis).Ok? && GetValueFromBytes(cs, previous, axis).Ok?
  {
    GetMin(cs, axis).value + (GetValueFromBytes(cs, current, axis).value - GetValueFromBytes(cs, previous, axis).value)
  }

  /** The value rebuilt from a difference run: the previous value plus the difference's distance from the origin. */
  function Rebuilt(cs: CoordinatesSystem, difference: seq<byte>, previous: seq<byte>, axis: CoordType): int
    requires GetValueFromBytes(cs, difference, axis).Ok? && GetValueFromBytes(cs, previous, axis).Ok?
  {
    GetValueFromBytes(cs, previous, axis).value + (GetValueFromBytes(cs, difference, axis).value - GetMin(cs, axis).value)
  }

  /**
   * The delta law of polylines: the difference run of `current` against
   * `previous`, rebuilt against `previous`, is the canonical run of the value
   * of `current`, so it decodes to that value; the difference run itself is
   * a complete run.
   */
  lemma DeltaInverse(cs: CoordinatesSystem, current: seq<byte>, previous: seq<byte>, axis: CoordType)
    returns (difference: seq<byte>)
    requires Regular(cs)
    requires GetValueFromBytes(cs, current, axis).Ok? && GetValueFromBytes(cs, previous, axis).Ok?
    requires InRange(cs, GetValueFromBytes(cs, current, axis).value, axis)
    requires InRange(cs, GetMin(cs, axis).value
                         + (GetValueFromBytes(cs, current, axis).value - GetValueFromBytes(cs, previous, axis).value), axis)
    ensures GetDifferenceFromBytes(cs, current, previous, axis) == Ok(difference)
    ensures GetBytesFromDifference(cs, difference, previous, axis)
         == GetBytesFromValue(cs, GetValueFromBytes(cs, current, axis).value, axis)
    ensures GetBytesFromDifference(cs, difference, previous, axis).Ok?
    ensures GetValueFromBytes(cs, GetBytesFromDifference(cs, difference, previous, axis).value, axis)
         == GetValueFromBytes(cs, current, axis)
    ensures Terminated(difference) && |difference| < |cs.byteCoeff|
  {
    difference := DeltaForward(cs, current, previous, axis);
    DeltaBack(cs, current, previous, axis, difference);
  }

  /** The difference run: a complete run that decodes to the difference, relative to the origin. */
  lemma DeltaForward(cs: CoordinatesSystem, current: seq<byte>, previous: seq<byte>, axis: CoordType)
    returns (difference: seq<byte>)
    requires Regular(cs)
    requires GetValueFromBytes(cs, current, axis).Ok? && GetValueFromBytes(cs, previous, axis).Ok?
    requires InRange(cs, GetMin(cs, axis).value
                         + (GetValueFromBytes(cs, current, axis).value - GetValueFromBytes(cs, previous, axis).value), axis)
    ensures GetDifferenceFromBytes(cs, current, previous, axis) == Ok(difference)
    ensures GetValueFromBytes(cs, difference, axis)
         == Ok(GetMin(cs, axis).value + (GetValueFromBytes(cs, current, axis).value - GetValueFromBytes(cs, previous, axis).value))
    ensures Terminated(difference) && |difference| < |cs.byteCoeff|
  {
    difference := GetDifferenceFromBytes(cs, current, previous, axis).value;
  }

  /** A run that decodes to the difference, rebuilt against `previous`, is the canonical run of `current`. */
  lemma DeltaBack(cs: CoordinatesSystem, current: seq<byte>, previous: seq<byte>, axis: CoordType, difference: seq<byte>)
    requires Regular(cs)
    requires GetValueFromBytes(cs, current, axis).Ok? && GetValueFromBytes(cs, previous, axis).Ok?
    requires InRange(cs, GetValueFromBytes(cs, current, axis).value, axis)
    requires GetValueFromBytes(cs, difference, axis)
          == Ok(GetMin(cs, axis).value + (GetValueFromBytes(cs, current, axis).value - GetValueFromBytes(cs, previous, axis).value))
    ensures GetBytesFromDifference(cs, difference, previous, axis)
         == GetBytesFromValue(cs, GetValueFromBytes(cs, current, axis).value, axis)
    ensures GetBytesFromDifference(cs, difference, previous, axis).Ok?
    ensures GetValueFromBytes(cs, GetBytesFromDifference(cs, difference, previous, axis).value, axis)
         == GetValueFromBytes(cs, current, axis)
  {
    var vc := GetValueFromBytes(cs, current, axis).value;
    var rebuilt := EncodedDecodes(cs, vc, axis);
    DifferenceUndone(vc, GetValueFromBytes(cs, previous, axis).value, GetMin(cs, axis).value,
                     GetValueFromBytes(cs, difference, axis).value);
    RebuildOf(cs, difference, previous, axis, vc, rebuilt);
  }

  /** Rebuilding against `previous` gives the run of any value equal to the one the difference run stands for. */
  lemma RebuildOf(cs: CoordinatesSystem, difference: seq<byte>, previous: seq<byte>, axis: CoordType, v: int, bs: seq<byte>)
    requires GetValueFromBytes(cs, difference, axis).Ok? && GetValueFromBytes(cs, previous, axis).Ok?
    requires GetValueFromBytes(cs, previous, axis).value + (GetValueFromBytes(cs, difference, axis).value - GetMin(cs, axis).value) == v
    requires GetBytesFromValue(cs, v, axis) == Ok(bs)
    ensures GetBytesFromDifference(cs, difference, previous, axis) == Ok(bs)
  {
    RebuildUnfold(cs, difference, previous, axis);
  }

  /** Adding back the previous value undoes taking the difference. */
  lemma DifferenceUndone(vc: int, vp: int, min: int, vd: int)
    requires vd == min + (vc - vp)
    ensures vp + (vd - min) == vc
  {
  }

  lemma RebuildUnfold(cs: CoordinatesSystem, difference: seq<byte>, previous: seq<byte>, axis: CoordType)
    requires GetValueFromBytes(cs, difference, axis).Ok? && GetValueFromBytes(cs, previous, axis).Ok?
    ensures GetBytesFromDifference(cs, difference, previous, axis)
         == GetBytesFromValue(cs, GetValueFromBytes(cs, previous, axis).value
                                  + (GetValueFromBytes(cs, difference, axis).value - GetMin(cs, axis).value), axis)
  {
  }
}
