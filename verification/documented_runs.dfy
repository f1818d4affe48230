/**
 * The byte runs documented in the comments of StCoordinatesSystem,
 * StCoordinatesSystemHelper and StLineString, reproduced by the codec of a
 * system with the default radii and marker: the sign examples, the marker
 * example, a one-byte count, and the runs of the polyline Z (0 0 0, 1 1 1)
 * at a resolution of 0.0001 with the Z origin at -100000. Also the example
 * in the comment of GetBytesFromDifference, LINESTRING (-1 -1, 0 0), whose
 * difference run is given with the wrong sign.
 */
module DocumentedRuns {
  import opened Errors
  import opened CoordinatesSystems
  import opened CoordinatesSystemHelper
  import opened CoordinatesSystemHelperLaws
  import opened PointLaws
  import opened CoordinateDifferences

  /** A system with the default radii 1, 64, 128, ... and the default marker 128. */
  predicate DefaultRadii(cs: CoordinatesSystem)
  {
    cs.byteCoeff == DefaultByteCoeff && cs.restartValue == DefaultRestartValue
  }

  /**
   * The sign examples of the decoder: a lone 63 is positive with digit 63, a
   * lone 65 negative with digit 1; a longer run starting with 130 is positive
   * with digit 2, one starting with 193 negative with digit 1.
   */
  lemma SignExamples()
    ensures IsNegative(DefaultByteCoeff, DefaultRestartValue, [63]) == Ok((false, 63))
    ensures IsNegative(DefaultByteCoeff, DefaultRestartValue, [65]) == Ok((true, 1))
    ensures IsNegative(DefaultByteCoeff, DefaultRestartValue, [130, 1]) == Ok((false, 2))
    ensures IsNegative(DefaultByteCoeff, DefaultRestartValue, [193, 1]) == Ok((true, 1))
  {
  }

  /** The lone byte 63 is the origin plus 63 units: the largest one-byte value above the origin. */
  lemma LoneByteRun(cs: CoordinatesSystem, axis: CoordType)
    requires DefaultRadii(cs) && axis != M && GetMin(cs, axis).Ok?
    ensures GetBytesFromValue(cs, GetMin(cs, axis).value + 63, axis) == Ok([63])
    ensures GetValueFromBytes(cs, [63], axis) == Ok(GetMin(cs, axis).value + 63)
  {
    DefaultShape(cs);
    DefaultScales();
    var c, r := DefaultByteCoeff, DefaultRestartValue;
    TopStep(c, r, 63, 0, 63, 0, [], [63]);
    AboveRun(cs, axis, 63, 0, [63]);
  }

  /** The lone byte 65 is the origin less one unit: digit 1 flagged by the level-1 radius 64. */
  lemma NegativeLoneByteRun(cs: CoordinatesSystem, axis: CoordType)
    requires DefaultRadii(cs) && axis != M && GetMin(cs, axis).Ok?
    ensures GetBytesFromValue(cs, GetMin(cs, axis).value - 1, axis) == Ok([65])
    ensures GetValueFromBytes(cs, [65], axis) == Ok(GetMin(cs, axis).value - 1)
  {
    DefaultShape(cs);
    DefaultScales();
    var c, r := DefaultByteCoeff, DefaultRestartValue;
    TopStep(c, r, 1, 0, 1, 0, [], [1]);
    BelowRun(cs, axis, 1, 0, [1], [65]);
  }

  /** The run 128 1 is the origin plus 64 units: digit 0 with the marker, then one unit of level 1. */
  lemma MarkedZeroRun(cs: CoordinatesSystem, axis: CoordType)
    requires DefaultRadii(cs) && axis != M && GetMin(cs, axis).Ok?
    ensures GetBytesFromValue(cs, GetMin(cs, axis).value + 64, axis) == Ok([128, 1])
    ensures GetValueFromBytes(cs, [128, 1], axis) == Ok(GetMin(cs, axis).value + 64)
  {
    DefaultShape(cs);
    DefaultScales();
    var c, r := DefaultByteCoeff, DefaultRestartValue;
    MarkedStep(c, r, 0, 0, 0, 0, [], [128]);
    TopStep(c, r, 64, 1, 1, 0, [128], [128, 1]);
    AboveRun(cs, axis, 64, 1, [128, 1]);
  }

  /** The run 130 1 is the origin plus 66 units: its first byte is positive with digit 2. */
  lemma MarkedTwoRun(cs: CoordinatesSystem, axis: CoordType)
    requires DefaultRadii(cs) && axis != M && GetMin(cs, axis).Ok?
    ensures GetBytesFromValue(cs, GetMin(cs, axis).value + 66, axis) == Ok([130, 1])
    ensures GetValueFromBytes(cs, [130, 1], axis) == Ok(GetMin(cs, axis).value + 66)
  {
    DefaultShape(cs);
    DefaultScales();
    var c, r := DefaultByteCoeff, DefaultRestartValue;
    MarkedStep(c, r, 2, 0, 2, 0, [], [130]);
    TopStep(c, r, 66, 1, 1, 2, [130], [130, 1]);
    AboveRun(cs, axis, 66, 1, [130, 1]);
  }

  /** The run 193 1 is the origin less 65 units: its first byte is negative with digit 1. */
  lemma NegativeTwoByteRun(cs: CoordinatesSystem, axis: CoordType)
    requires DefaultRadii(cs) && axis != M && GetMin(cs, axis).Ok?
    ensures GetBytesFromValue(cs, GetMin(cs, axis).value - 65, axis) == Ok([193, 1])
    ensures GetValueFromBytes(cs, [193, 1], axis) == Ok(GetMin(cs, axis).value - 65)
  {
    DefaultShape(cs);
    DefaultScales();
    var c, r := DefaultByteCoeff, DefaultRestartValue;
    MarkedStep(c, r, 1, 0, 1, 0, [], [129]);
    TopStep(c, r, 65, 1, 1, 1, [129], [129, 1]);
    FlagStep(c, r, 129, [1], [193, 1]);
    BelowRun(cs, axis, 65, 1, [129, 1], [193, 1]);
  }

  /**
   * A distance of 10000 units (one at a resolution of 0.0001) is the run
   * 144 156 1, the Z difference run of the documented polyline: digits 16, 28
   * and 1 at weights 1, 64 and 8192.
   */
  lemma UnitStepRun(cs: CoordinatesSystem, axis: CoordType)
    requires DefaultRadii(cs) && axis != M && GetMin(cs, axis).Ok?
    ensures GetBytesFromValue(cs, GetMin(cs, axis).value + 10000, axis) == Ok([144, 156, 1])
    ensures GetValueFromBytes(cs, [144, 156, 1], axis) == Ok(GetMin(cs, axis).value + 10000)
  {
    DefaultShape(cs);
    DefaultScales();
    var c, r := DefaultByteCoeff, DefaultRestartValue;
    MarkedStep(c, r, 16, 0, 16, 0, [], [144]);
    MarkedStep(c, r, 1808, 1, 28, 16, [144], [144, 156]);
    TopStep(c, r, 10000, 2, 1, 1808, [144, 156], [144, 156, 1]);
    AboveRun(cs, axis, 10000, 2, [144, 156, 1]);
  }

  /**
   * A distance of 10^9 units (100000 at a resolution of 0.0001) is the run
   * 128 168 214 185 7, the first Z run of the documented polyline: digits 0,
   * 40, 86, 57 and 7 at weights 1, 64, 8192, 1048576 and 134217728.
   */
  lemma FarRun(cs: CoordinatesSystem, axis: CoordType)
    requires DefaultRadii(cs) && axis != M && GetMin(cs, axis).Ok?
    ensures GetBytesFromValue(cs, GetMin(cs, axis).value + 1000000000, axis) == Ok([128, 168, 214, 185, 7])
    ensures GetValueFromBytes(cs, [128, 168, 214, 185, 7], axis) == Ok(GetMin(cs, axis).value + 1000000000)
  {
    DefaultShape(cs);
    DefaultScales();
    FarLowerLevels(cs.byteCoeff);
    FarMagnitude(cs.byteCoeff);
    AboveRun(cs, axis, 1000000000, 4, [128, 168, 214, 185, 7]);
  }

  /**
   * The example in the comment of GetBytesFromDifference, as the code reads it.
   * The comment says the run 208 156 1 is the difference +1 (10000 units) from
   * the run of -1, 176 139 197 186 141 17, so that the point rebuilt is 0. But
   * 208 is 144 with the sign flag 64 added, so the run is the difference -1
   * (NegativeStepRun), and the point rebuilt is the run of -2, 10000 units
   * below the run of -1 (MinusTwoRun), not the run of 0 (ZeroRun).
   */
  lemma CommentDifferenceAsWritten(cs: CoordinatesSystem, axis: CoordType)
    requires DefaultRadii(cs) && axis != M && GetMin(cs, axis).Ok?
    ensures GetBytesFromDifference(cs, [208, 156, 1], [176, 139, 197, 186, 141, 17], axis) == Ok([160, 239, 195, 186, 141, 17])
    ensures GetBytesFromDifference(cs, [208, 156, 1], [176, 139, 197, 186, 141, 17], axis) != Ok([128, 168, 198, 186, 141, 17])
  {
    MinusOneRun(cs, axis);
    MinusTwoRun(cs, axis);
    NegativeStepRun(cs, axis);
    RebuiltRun(cs, [208, 156, 1], [176, 139, 197, 186, 141, 17], axis,
               -10000, 293863990000, 293863980000, [160, 239, 195, 186, 141, 17]);
  }

  /**
   * The same example as the code writes it: the point 0 after the point -1 is
   * stored as the difference run 144 156 1, the +1 step of the documented
   * polyline (UnitStepRun).
   */
  lemma CommentDifferenceWritten(cs: CoordinatesSystem, axis: CoordType)
    requires DefaultRadii(cs) && axis != M && GetMin(cs, axis).Ok?
    ensures GetDifferenceFromBytes(cs, [128, 168, 198, 186, 141, 17], [176, 139, 197, 186, 141, 17], axis) == Ok([144, 156, 1])
  {
    MinusOneRun(cs, axis);
    ZeroRun(cs, axis);
    UnitStepRun(cs, axis);
    DifferenceRun(cs, [128, 168, 198, 186, 141, 17], [176, 139, 197, 186, 141, 17], axis,
                  293864000000, 293863990000, 10000, [144, 156, 1]);
  }

  /** The difference run 144 156 1 rebuilds, against the run of -1, the run of 0: the corrected example. */
  lemma CommentDifferenceCorrected(cs: CoordinatesSystem, axis: CoordType)
    requires DefaultRadii(cs) && axis != M && GetMin(cs, axis).Ok?
    ensures GetBytesFromDifference(cs, [144, 156, 1], [176, 139, 197, 186, 141, 17], axis) == Ok([128, 168, 198, 186, 141, 17])
  {
    MinusOneRun(cs, axis);
    ZeroRun(cs, axis);
    UnitStepRun(cs, axis);
    RebuiltRun(cs, [144, 156, 1], [176, 139, 197, 186, 141, 17], axis,
               10000, 293863990000, 293864000000, [128, 168, 198, 186, 141, 17]);
  }

  /** The run 208 156 1 is the origin less 10000 units: the run 144 156 1 flagged negative. */
  lemma NegativeStepRun(cs: CoordinatesSystem, axis: CoordType)
    requires DefaultRadii(cs) && axis != M && GetMin(cs, axis).Ok?
    ensures GetBytesFromValue(cs, GetMin(cs, axis).value - 10000, axis) == Ok([208, 156, 1])
    ensures GetValueFromBytes(cs, [208, 156, 1], axis) == Ok(GetMin(cs, axis).value - 10000)
  {
    DefaultShape(cs);
    DefaultScales();
    var c, r := DefaultByteCoeff, DefaultRestartValue;
    MarkedStep(c, r, 16, 0, 16, 0, [], [144]);
    MarkedStep(c, r, 1808, 1, 28, 16, [144], [144, 156]);
    TopStep(c, r, 10000, 2, 1, 1808, [144, 156], [144, 156, 1]);
    FlagStep(c, r, 144, [156, 1], [208, 156, 1]);
    BelowRun(cs, axis, 10000, 2, [144, 156, 1], [208, 156, 1]);
  }

  /** The run of -1 in the comment's example: 293863990000 units above the origin. */
  lemma MinusOneRun(cs: CoordinatesSystem, axis: CoordType)
    requires DefaultRadii(cs) && axis != M && GetMin(cs, axis).Ok?
    ensures GetBytesFromValue(cs, GetMin(cs, axis).value + 293863990000, axis) == Ok([176, 139, 197, 186, 141, 17])
    ensures GetValueFromBytes(cs, [176, 139, 197, 186, 141, 17], axis) == Ok(GetMin(cs, axis).value + 293863990000)
  {
    DefaultShape(cs);
    DefaultScales();
    MinusOneLevels(cs.byteCoeff);
    MinusOneMagnitude(cs.byteCoeff);
    AboveRun(cs, axis, 293863990000, 5, [176, 139, 197, 186, 141, 17]);
  }

  /** The run of -2 the comment's difference run rebuilds: 10000 units below the run of -1. */
  lemma MinusTwoRun(cs: CoordinatesSystem, axis: CoordType)
    requires DefaultRadii(cs) && axis != M && GetMin(cs, axis).Ok?
    ensures GetBytesFromValue(cs, GetMin(cs, axis).value + 293863980000, axis) == Ok([160, 239, 195, 186, 141, 17])
    ensures GetValueFromBytes(cs, [160, 239, 195, 186, 141, 17], axis) == Ok(GetMin(cs, axis).value + 293863980000)
  {
    DefaultShape(cs);
    DefaultScales();
    MinusTwoLevels(cs.byteCoeff);
    MinusTwoMagnitude(cs.byteCoeff);
    AboveRun(cs, axis, 293863980000, 5, [160, 239, 195, 186, 141, 17]);
  }

  /** The run of 0 in the comment's example, the first X run of the documented polyline. */
  lemma ZeroRun(cs: CoordinatesSystem, axis: CoordType)
    requires DefaultRadii(cs) && axis != M && GetMin(cs, axis).Ok?
    ensures GetBytesFromValue(cs, GetMin(cs, axis).value + 293864000000, axis) == Ok([128, 168, 198, 186, 141, 17])
    ensures GetValueFromBytes(cs, [128, 168, 198, 186, 141, 17], axis) == Ok(GetMin(cs, axis).value + 293864000000)
  {
    DefaultShape(cs);
    DefaultScales();
    ZeroLevels(cs.byteCoeff);
    ZeroMagnitude(cs.byteCoeff);
    AboveRun(cs, axis, 293864000000, 5, [128, 168, 198, 186, 141, 17]);
  }

  /** The marked levels 0 to 4 of the distance 293863990000 under the default weights: the run of -1 in the comment. */
  lemma MinusOneLevels(c: seq<byte>)
    requires |c| == 9 && Scale(c, 0) == 1 && Scale(c, 1) == 64 && Scale(c, 2) == 8192
    requires Scale(c, 3) == 1048576 && Scale(c, 4) == 134217728
    ensures MarkedLevels(c, 128, 1806213872, 4) == Ok([176, 139, 197, 186, 141])
  {
    MarkedStep(c, 128, 48, 0, 48, 0, [], [176]);
    MarkedStep(c, 128, 752, 1, 11, 48, [176], [176, 139]);
    MarkedStep(c, 128, 566000, 2, 69, 752, [176, 139], [176, 139, 197]);
    MarkedStep(c, 128, 61383408, 3, 58, 566000, [176, 139, 197], [176, 139, 197, 186]);
    MarkedStep(c, 128, 1806213872, 4, 13, 61383408, [176, 139, 197, 186], [176, 139, 197, 186, 141]);
  }

  /** The magnitude run of the distance 293863990000 under the default weights: the digit 17 on top of its lower levels. */
  lemma MinusOneMagnitude(c: seq<byte>)
    requires |c| == 9 && Scale(c, 5) == 17179869184
    requires MarkedLevels(c, 128, 1806213872, 4) == Ok([176, 139, 197, 186, 141])
    ensures EncodeMagnitude(c, 128, 293863990000, 5) == Ok([176, 139, 197, 186, 141, 17])
  {
    TopStep(c, 128, 293863990000, 5, 17, 1806213872, [176, 139, 197, 186, 141], [176, 139, 197, 186, 141, 17]);
  }

  /** The marked levels 0 to 4 of the distance 293863980000 under the default weights: the run of -2 it rebuilds. */
  lemma MinusTwoLevels(c: seq<byte>)
    requires |c| == 9 && Scale(c, 0) == 1 && Scale(c, 1) == 64 && Scale(c, 2) == 8192
    requires Scale(c, 3) == 1048576 && Scale(c, 4) == 134217728
    ensures MarkedLevels(c, 128, 1806203872, 4) == Ok([160, 239, 195, 186, 141])
  {
    MarkedStep(c, 128, 32, 0, 32, 0, [], [160]);
    MarkedStep(c, 128, 7136, 1, 111, 32, [160], [160, 239]);
    MarkedStep(c, 128, 556000, 2, 67, 7136, [160, 239], [160, 239, 195]);
    MarkedStep(c, 128, 61373408, 3, 58, 556000, [160, 239, 195], [160, 239, 195, 186]);
    MarkedStep(c, 128, 1806203872, 4, 13, 61373408, [160, 239, 195, 186], [160, 239, 195, 186, 141]);
  }

  /** The magnitude run of the distance 293863980000 under the default weights: the digit 17 on top of its lower levels. */
  lemma MinusTwoMagnitude(c: seq<byte>)
    requires |c| == 9 && Scale(c, 5) == 17179869184
    requires MarkedLevels(c, 128, 1806203872, 4) == Ok([160, 239, 195, 186, 141])
    ensures EncodeMagnitude(c, 128, 293863980000, 5) == Ok([160, 239, 195, 186, 141, 17])
  {
    TopStep(c, 128, 293863980000, 5, 17, 1806203872, [160, 239, 195, 186, 141], [160, 239, 195, 186, 141, 17]);
  }

  /** The marked levels 0 to 4 of the distance 293864000000 under the default weights: the run of 0. */
  lemma ZeroLevels(c: seq<byte>)
    requires |c| == 9 && Scale(c, 0) == 1 && Scale(c, 1) == 64 && Scale(c, 2) == 8192
    requires Scale(c, 3) == 1048576 && Scale(c, 4) == 134217728
    ensures MarkedLevels(c, 128, 1806223872, 4) == Ok([128, 168, 198, 186, 141])
  {
    MarkedStep(c, 128, 0, 0, 0, 0, [], [128]);
    MarkedStep(c, 128, 2560, 1, 40, 0, [128], [128, 168]);
    MarkedStep(c, 128, 576000, 2, 70, 2560, [128, 168], [128, 168, 198]);
    MarkedStep(c, 128, 61393408, 3, 58, 576000, [128, 168, 198], [128, 168, 198, 186]);
    MarkedStep(c, 128, 1806223872, 4, 13, 61393408, [128, 168, 198, 186], [128, 168, 198, 186, 141]);
  }

  /** The magnitude run of the distance 293864000000 under the default weights: the digit 17 on top of its lower levels. */
  lemma ZeroMagnitude(c: seq<byte>)
    requires |c| == 9 && Scale(c, 5) == 17179869184
    requires MarkedLevels(c, 128, 1806223872, 4) == Ok([128, 168, 198, 186, 141])
    ensures EncodeMagnitude(c, 128, 293864000000, 5) == Ok([128, 168, 198, 186, 141, 17])
  {
    TopStep(c, 128, 293864000000, 5, 17, 1806223872, [128, 168, 198, 186, 141], [128, 168, 198, 186, 141, 17]);
  }

  /**
   * When the difference run decodes to `d` units from the origin and the
   * previous run to `p` units, the run rebuilt is that of `p + d` units.
   */
  lemma RebuiltRun(cs: CoordinatesSystem, difference: seq<byte>, previous: seq<byte>, axis: CoordType,
                   d: int, p: int, v: int, run: seq<byte>)
    requires axis != M && GetMin(cs, axis).Ok?
    requires GetValueFromBytes(cs, difference, axis) == Ok(GetMin(cs, axis).value + d)
    requires GetValueFromBytes(cs, previous, axis) == Ok(GetMin(cs, axis).value + p)
    requires v == p + d
    requires GetBytesFromValue(cs, GetMin(cs, axis).value + v, axis) == Ok(run)
    ensures GetBytesFromDifference(cs, difference, previous, axis) == Ok(run)
  {
  }

  /**
   * When the current run decodes to `c` units from the origin and the
   * previous run to `p` units, the difference run stored is that of `c - p`
   * units.
   */
  lemma DifferenceRun(cs: CoordinatesSystem, current: seq<byte>, previous: seq<byte>, axis: CoordType,
                      c: int, p: int, v: int, run: seq<byte>)
    requires axis != M && GetMin(cs, axis).Ok?
    requires GetValueFromBytes(cs, current, axis) == Ok(GetMin(cs, axis).value + c)
    requires GetValueFromBytes(cs, previous, axis) == Ok(GetMin(cs, axis).value + p)
    requires v == c - p
    requires GetBytesFromValue(cs, GetMin(cs, axis).value + v, axis) == Ok(run)
    ensures GetDifferenceFromBytes(cs, current, previous, axis) == Ok(run)
  {
  }

  /** With the default radii, a body length below 64 is written as the single byte it is. */
  lemma DefaultCountIsOneByte(cs: CoordinatesSystem, count: nat)
    requires DefaultRadii(cs) && count < 64
    ensures GetBytesFromCount(cs, count) == Ok([count])
  {
    DefaultsFit(cs);
    SmallCountIsOneByte(cs, count);
  }

  /** A run the encoder writes for a distance above the origin, within reach, decodes back to that value. */
  lemma AboveRun(cs: CoordinatesSystem, axis: CoordType, a: nat, k: nat, run: seq<byte>)
    requires Regular(cs) && forall i :: 1 <= i < |cs.byteCoeff| ==> cs.byteCoeff[i] >= 2
    requires axis != M && GetMin(cs, axis).Ok?
    requires k + 1 < |cs.byteCoeff|
    requires k == 0 || Scale(cs.byteCoeff, k) <= a
    requires a < Scale(cs.byteCoeff, k + 1)
    requires EncodeMagnitude(cs.byteCoeff, cs.restartValue, a, k) == Ok(run)
    ensures GetBytesFromValue(cs, GetMin(cs, axis).value + a, axis) == Ok(run)
    ensures GetValueFromBytes(cs, run, axis) == Ok(GetMin(cs, axis).value + a)
  {
    var v := GetMin(cs, axis).value + a;
    EncodedAbove(cs, v, axis, k, run);
    ScaleMonotone(cs.byteCoeff, k + 1, |cs.byteCoeff| - 1);
    Reachable(cs, axis, v, run);
  }

  /** A run the encoder writes for a distance below the origin, within reach, decodes back to that value. */
  lemma BelowRun(cs: CoordinatesSystem, axis: CoordType, a: nat, k: nat, magnitude: seq<byte>, run: seq<byte>)
    requires Regular(cs) && forall i :: 1 <= i < |cs.byteCoeff| ==> cs.byteCoeff[i] >= 2
    requires axis != M && GetMin(cs, axis).Ok?
    requires 1 <= a && k + 1 < |cs.byteCoeff|
    requires k == 0 || Scale(cs.byteCoeff, k) <= a
    requires a < Scale(cs.byteCoeff, k + 1)
    requires EncodeMagnitude(cs.byteCoeff, cs.restartValue, a, k) == Ok(magnitude)
    requires SetNegative(cs.byteCoeff, cs.restartValue, magnitude) == Ok(run)
    ensures GetBytesFromValue(cs, GetMin(cs, axis).value - a, axis) == Ok(run)
    ensures GetValueFromBytes(cs, run, axis) == Ok(GetMin(cs, axis).value - a)
  {
    var v := GetMin(cs, axis).value - a;
    EncodedBelow(cs, v, axis, k, magnitude, run);
    ScaleMonotone(cs.byteCoeff, k + 1, |cs.byteCoeff| - 1);
    Reachable(cs, axis, v, run);
  }

  /** In a regular system, the run of an in-range value decodes back to it. */
  lemma Reachable(cs: CoordinatesSystem, axis: CoordType, v: int, run: seq<byte>)
    requires Regular(cs) && InRange(cs, v, axis)
    requires GetBytesFromValue(cs, v, axis) == Ok(run)
    ensures GetValueFromBytes(cs, run, axis) == Ok(v)
  {
    RoundTrip(cs, v, axis);
  }

  /** A value at or above the origin is encoded as the magnitude run of its distance, at the level it reaches. */
  lemma EncodedAbove(cs: CoordinatesSystem, v: int, axis: CoordType, k: nat, run: seq<byte>)
    requires |cs.byteCoeff| >= 1 && forall i :: 1 <= i < |cs.byteCoeff| ==> cs.byteCoeff[i] >= 2
    requires axis != M && GetMin(cs, axis).Ok? && v >= GetMin(cs, axis).value
    requires k < |cs.byteCoeff|
    requires k == 0 || Scale(cs.byteCoeff, k) <= v - GetMin(cs, axis).value
    requires k + 1 < |cs.byteCoeff| ==> v - GetMin(cs, axis).value < Scale(cs.byteCoeff, k + 1)
    requires EncodeMagnitude(cs.byteCoeff, cs.restartValue, v - GetMin(cs, axis).value, k) == Ok(run)
    ensures GetBytesFromValue(cs, v, axis) == Ok(run)
  {
    TopLevelIs(cs.byteCoeff, v - GetMin(cs, axis).value, k, |cs.byteCoeff| - 1);
  }

  /** A value below the origin is encoded as the magnitude run of its distance, flagged negative. */
  lemma EncodedBelow(cs: CoordinatesSystem, v: int, axis: CoordType, k: nat, magnitude: seq<byte>, run: seq<byte>)
    requires |cs.byteCoeff| >= 1 && forall i :: 1 <= i < |cs.byteCoeff| ==> cs.byteCoeff[i] >= 2
    requires axis != M && GetMin(cs, axis).Ok? && v < GetMin(cs, axis).value
    requires k < |cs.byteCoeff|
    requires k == 0 || Scale(cs.byteCoeff, k) <= GetMin(cs, axis).value - v
    requires k + 1 < |cs.byteCoeff| ==> GetMin(cs, axis).value - v < Scale(cs.byteCoeff, k + 1)
    requires EncodeMagnitude(cs.byteCoeff, cs.restartValue, GetMin(cs, axis).value - v, k) == Ok(magnitude)
    requires SetNegative(cs.byteCoeff, cs.restartValue, magnitude) == Ok(run)
    ensures GetBytesFromValue(cs, v, axis) == Ok(run)
  {
    TopLevelIs(cs.byteCoeff, GetMin(cs, axis).value - v, k, |cs.byteCoeff| - 1);
  }

  /**
   * The level the encoder picks for a distance between the weight of level
   * `k` and that of the next level is `k`, when every radius is at least 2.
   */
  lemma {:induction false} TopLevelIs(c: seq<byte>, a: nat, k: nat, n: nat)
    requires k <= n < |c|
    requires forall i :: 1 <= i < |c| ==> c[i] >= 2
    requires k == 0 || Scale(c, k) <= a
    requires k < n ==> a < Scale(c, k + 1)
    ensures TopLevel(c, a, n) == k
    decreases n
  {
    if n > k {
      if k + 1 < n {
        ScaleStrictlyIncreasing(c, k + 1, n);
      }
      TopLevelIs(c, a, k, n - 1);
    }
  }

  /** The top level of a magnitude: its digit, unmarked, after the marked lower levels. */
  lemma TopStep(c: seq<byte>, r: byte, a: nat, k: nat, d: nat, low: nat, lower: seq<byte>, run: seq<byte>)
    requires k < |c| && Scale(c, k) > 0
    requires a / Scale(c, k) == d && a - d * Scale(c, k) == low && d <= 255
    requires k >= 1 || low == 0
    requires MarkedLevels(c, r, low, k - 1) == Ok(lower)
    requires run == lower + [d]
    ensures EncodeMagnitude(c, r, a, k) == Ok(run)
  {
  }

  /** One level of the marked bytes: the digit of level `i` plus the marker, after the lower levels. */
  lemma MarkedStep(c: seq<byte>, r: byte, rest: nat, i: nat, d: nat, low: nat, lower: seq<byte>, run: seq<byte>)
    requires i < |c| && Scale(c, i) > 0
    requires rest / Scale(c, i) == d && rest - d * Scale(c, i) == low
    requires d + r <= 255
    requires i >= 1 || low == 0
    requires MarkedLevels(c, r, low, i - 1) == Ok(lower)
    requires run == lower + [d + r]
    ensures MarkedLevels(c, r, rest, i) == Ok(run)
  {
  }

  /** Flagging a longer run negative adds the level-1 radius to its first byte and keeps the rest. */
  lemma FlagStep(c: seq<byte>, r: byte, lead: byte, tail: seq<byte>, run: seq<byte>)
    requires |c| >= 2 && tail != []
    requires r <= lead <= r + c[1] && lead + c[1] <= 255
    requires run == [lead + c[1]] + tail
    ensures SetNegative(c, r, [lead] + tail) == Ok(run)
  {
    assert ([lead] + tail)[1..] == tail;
  }

  /** The magnitude run of the distance 10^9 under the default weights: the digit 7 on top of its lower levels. */
  lemma FarMagnitude(c: seq<byte>)
    requires |c| == 9 && Scale(c, 4) == 134217728
    requires MarkedLevels(c, 128, 60475904, 3) == Ok([128, 168, 214, 185])
    ensures EncodeMagnitude(c, 128, 1000000000, 4) == Ok([128, 168, 214, 185, 7])
  {
    TopStep(c, 128, 1000000000, 4, 7, 60475904, [128, 168, 214, 185], [128, 168, 214, 185, 7]);
  }

  /** The marked levels 0 to 3 of the distance 10^9 under the default weights. */
  lemma FarLowerLevels(c: seq<byte>)
    requires |c| == 9 && Scale(c, 0) == 1 && Scale(c, 1) == 64 && Scale(c, 2) == 8192 && Scale(c, 3) == 1048576
    ensures MarkedLevels(c, 128, 60475904, 3) == Ok([128, 168, 214, 185])
  {
    MarkedStep(c, 128, 0, 0, 0, 0, [], [128]);
    MarkedStep(c, 128, 2560, 1, 40, 0, [128], [128, 168]);
    MarkedStep(c, 128, 707072, 2, 86, 2560, [128, 168], [128, 168, 214]);
    MarkedStep(c, 128, 60475904, 3, 57, 707072, [128, 168, 214], [128, 168, 214, 185]);
  }

  /** What the codec needs to know of a system with the default radii and marker. */
  lemma DefaultShape(cs: CoordinatesSystem)
    requires DefaultRadii(cs)
    ensures Regular(cs) && |cs.byteCoeff| == 9
    ensures forall i :: 1 <= i < |cs.byteCoeff| ==> cs.byteCoeff[i] >= 2
  {
    DefaultsAreRegular(cs);
  }

  /** The weights of the seven lowest default levels. */
  lemma DefaultScales()
    ensures Scale(DefaultByteCoeff, 0) == 1
    ensures Scale(DefaultByteCoeff, 1) == 64
    ensures Scale(DefaultByteCoeff, 2) == 8192
    ensures Scale(DefaultByteCoeff, 3) == 1048576
    ensures Scale(DefaultByteCoeff, 4) == 134217728
    ensures Scale(DefaultByteCoeff, 5) == 17179869184
    ensures Scale(DefaultByteCoeff, 6) == 2199023255552
  {
  }
}
