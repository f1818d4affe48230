/**
 * Laws of the coordinate codec: the origin encodes as `{0}`, encoding and
 * decoding are inverse on every value within the capacity of a regular
 * coordinate system (on both sides of the origin), and a byte count small
 * enough is written as itself.
 */
module CoordinatesSystemHelperLaws {
  import opened Errors
  import opened CoordinatesSystems
  import opened CoordinatesSystemHelper

  /**
   * A complete run as the payload splitter sees it: every byte but the last
   * has the top bit set, the last has it clear.
   */
  predicate Terminated(run: seq<byte>)
  {
    && |run| > 0
    && (forall j :: 0 <= j < |run| - 1 ==> run[j] >= 128)
    && run[|run| - 1] < 128
  }

  /** Quotient and remainder of `rest` by a positive factor below `f * c`. */
  lemma DivisionBounds(rest: nat, f: nat, c: nat)
    requires f > 0 && rest < f * c
    ensures rest / f < c
    ensures 0 <= rest - (rest / f) * f < f
  {
    var q := rest / f;
    assert rest == q * f + rest % f;
  }

  /** The radii of a regular system are between 1 and 256 less the marker, so at most 128. */
  lemma RegularRadii(cs: CoordinatesSystem)
    requires Regular(cs)
    ensures forall k :: 1 <= k < |cs.byteCoeff| ==>
      1 <= cs.byteCoeff[k] && cs.restartValue + cs.byteCoeff[k] <= 256 && cs.byteCoeff[k] <= 128
  {
  }

  /**
   * In a regular system, the lower levels of a remainder below the next factor
   * are all written, each a marker plus a digit below the next radius.
   */
  lemma {:induction false} MarkedLevelsRegular(cs: CoordinatesSystem, rest: nat, i: int)
    requires Regular(cs)
    requires -1 <= i && i + 1 < |cs.byteCoeff|
    requires if i < 0 then rest == 0 else rest < Scale(cs.byteCoeff, i + 1)
    ensures MarkedLevels(cs.byteCoeff, cs.restartValue, rest, i).Ok?
    ensures |MarkedLevels(cs.byteCoeff, cs.restartValue, rest, i).value| == i + 1
    ensures BelowRadii(cs.byteCoeff, cs.restartValue, MarkedLevels(cs.byteCoeff, cs.restartValue, rest, i).value)
    decreases i + 1
  {
    if i >= 0 {
      var d, next := LevelDigit(cs, rest, i);
      MarkedLevelsRegular(cs, next, i - 1);
      MarkedLevelsRegularStep(cs.byteCoeff, cs.restartValue, rest, i, d, next);
    }
  }

  /** The inductive step of `MarkedLevelsRegular`: one more marked digit below its radius. */
  lemma MarkedLevelsRegularStep(c: seq<byte>, r: byte, rest: nat, i: nat, d: nat, next: nat)
    requires i + 1 < |c| && Scale(c, i) > 0
    requires d == rest / Scale(c, i) && d + r < 256 && next == rest - d * Scale(c, i)
    requires d + r < r + c[i + 1]
    requires MarkedLevels(c, r, next, i - 1).Ok?
    requires |MarkedLevels(c, r, next, i - 1).value| == i
    requires BelowRadii(c, r, MarkedLevels(c, r, next, i - 1).value)
    ensures MarkedLevels(c, r, rest, i).Ok?
    ensures |MarkedLevels(c, r, rest, i).value| == i + 1
    ensures BelowRadii(c, r, MarkedLevels(c, r, rest, i).value)
  {
    MarkedLevelsStep(c, r, rest, i, d);
    BelowRadiiAppend(c, r, MarkedLevels(c, r, rest - d * Scale(c, i), i - 1).value, d + r);
  }

  /** Every byte of a run of marked digits lies below the marker plus the radius of the next level. */
  predicate BelowRadii(c: seq<byte>, r: byte, bs: seq<int>)
    decreases |bs|
  {
    && |bs| < |c|
    && (|bs| == 0 || (BelowRadii(c, r, bs[..|bs| - 1]) && bs[|bs| - 1] < r + c[|bs|]))
  }

  /** Appending a byte below the radius of the next level keeps every byte below its next radius. */
  lemma BelowRadiiAppend(c: seq<byte>, r: byte, lower: seq<int>, b: int)
    requires |lower| + 1 < |c| && BelowRadii(c, r, lower)
    requires b < r + c[|lower| + 1]
    ensures BelowRadii(c, r, lower + [b])
  {
    assert (lower + [b])[..|lower|] == lower;
  }

  /** The bytes of a run below their radii, one by one. */
  lemma {:induction false} BelowRadiiAll(c: seq<byte>, r: byte, bs: seq<int>)
    requires BelowRadii(c, r, bs)
    ensures forall j :: 0 <= j < |bs| ==> bs[j] < r + c[j + 1]
    decreases |bs|
  {
    if |bs| > 0 {
      var init := bs[..|bs| - 1];
      BelowRadiiAll(c, r, init);
      forall j | 0 <= j < |bs|
        ensures bs[j] < r + c[j + 1]
      {
        if j < |init| {
          assert bs[j] == init[j];
        }
      }
    }
  }

  /** One unfolding of the lower levels when the digit fits in a byte with the marker on top. */
  lemma MarkedLevelsStep(c: seq<byte>, r: byte, rest: nat, i: nat, d: nat)
    requires i < |c| && Scale(c, i) > 0
    requires d == rest / Scale(c, i) && d + r < 256 && d * Scale(c, i) <= rest
    requires MarkedLevels(c, r, rest - d * Scale(c, i), i - 1).Ok?
    ensures MarkedLevels(c, r, rest, i) == Ok(MarkedLevels(c, r, rest - d * Scale(c, i), i - 1).value + [d + r])
  {
    var b: byte := (d + r) % 256;
    assert b == d + r;
  }

  /**
   * One level of the expansion in a regular system: the digit of a remainder
   * below the next factor is below the next radius, fits in a byte with the
   * marker on top, and leaves a remainder below the factor of its own level.
   */
  lemma LevelDigit(cs: CoordinatesSystem, rest: nat, i: nat) returns (d: nat, next: nat)
    requires Regular(cs)
    requires i + 1 < |cs.byteCoeff|
    requires rest < Scale(cs.byteCoeff, i + 1)
    ensures Scale(cs.byteCoeff, i) > 0 && d == rest / Scale(cs.byteCoeff, i)
    ensures d < cs.byteCoeff[i + 1] && d + cs.restartValue < 256
    ensures d + cs.restartValue < cs.restartValue + cs.byteCoeff[i + 1]
    ensures next == rest - d * Scale(cs.byteCoeff, i)
    ensures if i - 1 < 0 then next == 0 else next < Scale(cs.byteCoeff, i - 1 + 1)
  {
    var c := cs.byteCoeff;
    var f := Scale(c, i);
    RegularRadii(cs);
    ScalePositive(c, i);
    assert Scale(c, i + 1) == f * c[i + 1];
    DivisionBounds(rest, f, c[i + 1]);
    d := rest / f;
    next := rest - d * f;
  }

  /**
   * In a regular system, a magnitude below the factor of level `k + 1` is written
   * in `k + 1` bytes: marked digits below their next radius, then the top digit
   * below the radius of level `k + 1`.
   */
  lemma EncodeMagnitudeRegular(cs: CoordinatesSystem, a: nat, k: nat)
    requires Regular(cs)
    requires k + 1 < |cs.byteCoeff|
    requires a < Scale(cs.byteCoeff, k + 1)
    ensures EncodeMagnitude(cs.byteCoeff, cs.restartValue, a, k).Ok?
    ensures var bs := EncodeMagnitude(cs.byteCoeff, cs.restartValue, a, k).value;
      && (forall j :: 0 <= j < k ==> bs[j] < cs.restartValue + cs.byteCoeff[j + 1])
      && bs[k] < cs.byteCoeff[k + 1]
  {
    var c := cs.byteCoeff;
    var f := Scale(c, k);
    RegularRadii(cs);
    ScalePositive(c, k);
    assert Scale(c, k + 1) == f * c[k + 1];
    DivisionBounds(a, f, c[k + 1]);
    MarkedLevelsRegular(cs, a - (a / f) * f, k - 1);
    BelowRadiiAll(c, cs.restartValue, MarkedLevels(c, cs.restartValue, a - (a / f) * f, k - 1).value);
  }

  /**
   * The decoder reads back the digits of an unsigned run whose byte 0 only
   * differs in its flag: marked bytes are normalized, the top byte is left alone.
   */
  lemma DecodedDigitsOfRun(cs: CoordinatesSystem, mag: seq<byte>, bs: seq<byte>, first: byte)
    requires Regular(cs)
    requires 1 <= |mag| < |cs.byteCoeff|
    requires forall j :: 0 <= j < |mag| - 1 ==> cs.restartValue <= mag[j] < cs.restartValue + cs.byteCoeff[j + 1]
    requires mag[|mag| - 1] < cs.byteCoeff[|mag|]
    requires |bs| == |mag| && bs[1..] == mag[1..]
    requires first == RunDigits(mag, cs.restartValue)[0]
    ensures DecodedDigits(cs.byteCoeff, cs.restartValue, bs, first) == RunDigits(mag, cs.restartValue)
  {
    RegularRadii(cs);
    var ds := DecodedDigits(cs.byteCoeff, cs.restartValue, bs, first);
    var rs := RunDigits(mag, cs.restartValue);
    forall j | 0 <= j < |bs|
      ensures ds[j] == rs[j]
    {
      if j > 0 {
        assert bs[j] == mag[j];
      }
    }
  }

  /**
   * A run written by the magnitude encoder of a regular system: marked digits
   * below their next radius, then an unmarked top digit below its next radius.
   */
  predicate WellFormedMagnitude(cs: CoordinatesSystem, mag: seq<byte>)
  {
    && 1 <= |mag| < |cs.byteCoeff|
    && (forall j :: 0 <= j < |mag| - 1 ==> cs.restartValue <= mag[j] < cs.restartValue + cs.byteCoeff[j + 1])
    && mag[|mag| - 1] < cs.byteCoeff[|mag|]
  }

  /**
   * The encoder's unsigned run of an in-range value: well formed, worth the
   * distance from the origin, and flagged negative exactly when the value lies
   * below the origin.
   */
  lemma MagnitudeOf(cs: CoordinatesSystem, v: int, axis: CoordType) returns (mag: seq<byte>)
    requires Regular(cs) && InRange(cs, v, axis)
    ensures WellFormedMagnitude(cs, mag)
    ensures Weighted(cs.byteCoeff, RunDigits(mag, cs.restartValue))
         == (if v < GetMin(cs, axis).value then GetMin(cs, axis).value - v else v - GetMin(cs, axis).value)
    ensures GetBytesFromValue(cs, v, axis)
         == if v < GetMin(cs, axis).value then SetNegative(cs.byteCoeff, cs.restartValue, mag) else Ok(mag)
  {
    var c := cs.byteCoeff;
    var r := cs.restartValue;
    var min := GetMin(cs, axis).value;
    var offset := v - min;
    var a := if offset < 0 then -offset else offset;
    var k := TopLevelBelowCapacity(cs, a);
    EncodeMagnitudeRegular(cs, a, k);
    mag := EncodeMagnitude(c, r, a, k).value;
    EncodeUnfold(cs, v, axis, a, k, mag);
  }

  /** The encoder is the magnitude run at the selected top level, flagged when below the origin. */
  lemma EncodeUnfold(cs: CoordinatesSystem, v: int, axis: CoordType, a: nat, k: nat, mag: seq<byte>)
    requires axis != M && GetMin(cs, axis).Ok? && |cs.byteCoeff| >= 1
    requires a == (if v < GetMin(cs, axis).value then GetMin(cs, axis).value - v else v - GetMin(cs, axis).value)
    requires k == TopLevel(cs.byteCoeff, a, |cs.byteCoeff| - 1)
    requires EncodeMagnitude(cs.byteCoeff, cs.restartValue, a, k) == Ok(mag)
    ensures GetBytesFromValue(cs, v, axis)
         == if v < GetMin(cs, axis).value then SetNegative(cs.byteCoeff, cs.restartValue, mag) else Ok(mag)
  {
  }

  /** A magnitude below the capacity tops out below the last level, under the factor of the level above. */
  lemma TopLevelBelowCapacity(cs: CoordinatesSystem, a: nat) returns (k: nat)
    requires |cs.byteCoeff| >= 2 && a < Capacity(cs)
    ensures k == TopLevel(cs.byteCoeff, a, |cs.byteCoeff| - 1)
    ensures k + 1 < |cs.byteCoeff| && a < Scale(cs.byteCoeff, k + 1)
  {
    k := TopLevel(cs.byteCoeff, a, |cs.byteCoeff| - 1);
  }

  /**
   * Flagging a well-formed run: the flag fits, the sign reader sees it and
   * recovers the level-0 digit under it, and the top bit is set on every byte
   * but the last.
   */
  lemma SignedRunFacts(cs: CoordinatesSystem, mag: seq<byte>, negative: bool) returns (bs: seq<byte>)
    requires Regular(cs) && WellFormedMagnitude(cs, mag)
    ensures negative ==> SetNegative(cs.byteCoeff, cs.restartValue, mag) == Ok(bs)
    ensures !negative ==> bs == mag
    ensures |bs| == |mag| && bs[1..] == mag[1..]
    ensures IsNegative(cs.byteCoeff, cs.restartValue, bs) == Ok((negative, RunDigits(mag, cs.restartValue)[0] as byte))
    ensures forall j :: 0 <= j < |bs| - 1 ==> bs[j] >= 128
    ensures bs[|bs| - 1] < 128
  {
    if negative {
      bs := NegativeRunFacts(cs, mag);
    } else {
      bs := mag;
      PositiveRunFacts(cs, mag);
    }
  }

  /** The negative half of SignedRunFacts: the flagged run reads as negative with the same level-0 digit. */
  lemma NegativeRunFacts(cs: CoordinatesSystem, mag: seq<byte>) returns (bs: seq<byte>)
    requires Regular(cs) && WellFormedMagnitude(cs, mag)
    ensures SetNegative(cs.byteCoeff, cs.restartValue, mag) == Ok(bs)
    ensures |bs| == |mag| && bs[1..] == mag[1..]
    ensures IsNegative(cs.byteCoeff, cs.restartValue, bs) == Ok((true, RunDigits(mag, cs.restartValue)[0] as byte))
    ensures forall j :: 0 <= j < |bs| - 1 ==> bs[j] >= 128
    ensures bs[|bs| - 1] < 128
  {
    RegularRadii(cs);
    bs := SetNegative(cs.byteCoeff, cs.restartValue, mag).value;
    assert forall j :: 1 <= j < |bs| ==> bs[j] == mag[j];
  }

  /** The positive half of SignedRunFacts: the unflagged run reads as positive with its level-0 digit. */
  lemma PositiveRunFacts(cs: CoordinatesSystem, mag: seq<byte>)
    requires Regular(cs) && WellFormedMagnitude(cs, mag)
    ensures IsNegative(cs.byteCoeff, cs.restartValue, mag) == Ok((false, RunDigits(mag, cs.restartValue)[0] as byte))
    ensures forall j :: 0 <= j < |mag| - 1 ==> mag[j] >= 128
    ensures mag[|mag| - 1] < 128
  {
    RegularRadii(cs);
  }

  /**
   * Everything the encoder promises for an in-range value of a regular system:
   * the run exists, is shorter than the radius array, every byte but the last
   * has the top bit set, the last has it clear, and the decoder returns the value.
   */
  lemma EncodeFacts(cs: CoordinatesSystem, v: int, axis: CoordType)
    requires Regular(cs) && InRange(cs, v, axis)
    ensures GetBytesFromValue(cs, v, axis).Ok?
    ensures var bs := GetBytesFromValue(cs, v, axis).value;
      && 1 <= |bs| < |cs.byteCoeff|
      && Terminated(bs)
      && GetValueFromBytes(cs, bs, axis) == Ok(v)
  {
    var mag := MagnitudeOf(cs, v, axis);
    var negative := v < GetMin(cs, axis).value;
    var bs := SignedRunFacts(cs, mag, negative);
    var first: byte := RunDigits(mag, cs.restartValue)[0] as byte;
    DecodedDigitsOfRun(cs, mag, bs, first);
    DecodeIs(cs, bs, axis, negative, first, Weighted(cs.byteCoeff, RunDigits(mag, cs.restartValue)));
    assert GetBytesFromValue(cs, v, axis) == Ok(bs);
  }

  /** The decoder, given the sign reader's verdict and the weight of the digits it reads. */
  lemma DecodeIs(cs: CoordinatesSystem, bs: seq<byte>, axis: CoordType, negative: bool, first: byte, magnitude: int)
    requires axis != M && GetMin(cs, axis).Ok? && |bs| < |cs.byteCoeff|
    requires IsNegative(cs.byteCoeff, cs.restartValue, bs) == Ok((negative, first))
    requires Weighted(cs.byteCoeff, DecodedDigits(cs.byteCoeff, cs.restartValue, bs, first)) == magnitude
    ensures GetValueFromBytes(cs, bs, axis)
         == Ok(if negative then GetMin(cs, axis).value - magnitude else GetMin(cs, axis).value + magnitude)
  {
  }

  /** Decoding the encoding of any in-range value gives the value back, below the origin as well as above it. */
  lemma RoundTrip(cs: CoordinatesSystem, v: int, axis: CoordType)
    requires Regular(cs) && InRange(cs, v, axis)
    ensures GetBytesFromValue(cs, v, axis).Ok?
    ensures GetValueFromBytes(cs, GetBytesFromValue(cs, v, axis).value, axis) == Ok(v)
  {
    EncodeFacts(cs, v, axis);
  }

  /**
   * The origin of an axis encodes as the single byte 0, in every system whose
   * radii are nonzero.
   */
  lemma OriginEncodesAsZero(cs: CoordinatesSystem, axis: CoordType)
    requires |cs.byteCoeff| >= 1
    requires forall k :: 1 <= k < |cs.byteCoeff| ==> cs.byteCoeff[k] >= 1
    requires axis != M && GetMin(cs, axis).Ok?
    ensures GetBytesFromValue(cs, GetMin(cs, axis).value, axis) == Ok([0])
  {
    var k := TopLevel(cs.byteCoeff, 0, |cs.byteCoeff| - 1);
    if k > 0 {
      ScalePositive(cs.byteCoeff, k);
    }
    assert k == 0;
    SingleLevel(cs.byteCoeff, cs.restartValue, 0);
    EncodeUnfold(cs, GetMin(cs, axis).value, axis, 0, 0, [0]);
  }

  /** A magnitude written at level 0 is the single byte of its value. */
  lemma SingleLevel(c: seq<byte>, r: byte, a: nat)
    requires |c| >= 1 && a < 256
    ensures EncodeMagnitude(c, r, a, 0) == Ok([a as byte])
  {
    assert Scale(c, 0) == 1;
    assert a / 1 == a && a - a * 1 == 0;
    assert MarkedLevels(c, r, 0, -1) == Ok([]);
    assert EncodeMagnitude(c, r, a, 0).value == [a as byte];
  }

  /**
   * Sign symmetry of the layout: the run of a value `a` units below the origin
   * is the run of the value `a` units above it with byte 0 flagged negative.
   */
  lemma BelowOriginIsFlagged(cs: CoordinatesSystem, axis: CoordType, a: nat)
    requires a > 0 && axis != M && GetMin(cs, axis).Ok?
    ensures var above := GetBytesFromValue(cs, GetMin(cs, axis).value + a, axis);
            var below := GetBytesFromValue(cs, GetMin(cs, axis).value - a, axis);
      && (above.Ok? ==> below == SetNegative(cs.byteCoeff, cs.restartValue, above.value))
      && (above.Err? ==> below == above)
  {
  }


  /** The run of an in-range value: complete, shorter than the radius array, and decoding to the value. */
  lemma RunOf(cs: CoordinatesSystem, v: int, axis: CoordType) returns (bs: seq<byte>)
    requires Regular(cs) && InRange(cs, v, axis)
    ensures GetBytesFromValue(cs, v, axis) == Ok(bs)
    ensures GetValueFromBytes(cs, bs, axis) == Ok(v)
    ensures Terminated(bs) && |bs| < |cs.byteCoeff|
  {
    EncodeFacts(cs, v, axis);
    bs := GetBytesFromValue(cs, v, axis).value;
  }

  /** The run of an in-range value, which decodes to that value. */
  lemma EncodedDecodes(cs: CoordinatesSystem, v: int, axis: CoordType) returns (bs: seq<byte>)
    requires Regular(cs) && InRange(cs, v, axis)
    ensures GetBytesFromValue(cs, v, axis) == Ok(bs)
    ensures GetValueFromBytes(cs, bs, axis) == Ok(v)
  {
    RoundTrip(cs, v, axis);
    bs := GetBytesFromValue(cs, v, axis).value;
  }

  /**
   * A byte count below the product of the first two radii is written as the
   * count itself, provided the product of all radii fits a `long`.
   */
  lemma SmallCountIsOneByte(cs: CoordinatesSystem, count: nat)
    requires |cs.byteCoeff| >= 2
    requires forall k :: 1 <= k < |cs.byteCoeff| ==> cs.byteCoeff[k] >= 1
    requires LongFits(cs)
    requires count < (cs.byteCoeff[0] as int) * (cs.byteCoeff[1] as int) && count < 256
    ensures GetBytesFromCount(cs, count) == Ok([count])
  {
    var c := cs.byteCoeff;
    var k := CountLevelOf(cs, count);
    if k > 0 {
      ScaleMonotone(c, 1, k);
      assert Scale(c, 1) == c[1];
      MultiplyMonotone(c[0], Scale(c, 1), Scale(c, k));
    }
    SingleLevel(c, cs.restartValue, count);
  }

  /** With no zero radius, the factors never decrease. */
  lemma {:induction false} ScaleMonotone(coeff: seq<byte>, i: nat, j: nat)
    requires i <= j < |coeff|
    requires forall k :: 1 <= k < |coeff| ==> coeff[k] >= 1
    ensures Scale(coeff, i) <= Scale(coeff, j)
  {
    if i < j {
      ScaleMonotone(coeff, i, j - 1);
      MultiplyByAtLeastOne(Scale(coeff, j - 1), coeff[j]);
    }
  }

  lemma MultiplyMonotone(a: nat, b: nat, c: nat)
    requires b <= c
    ensures a * b <= a * c
  {
  }

  lemma MultiplyByAtLeastOne(a: nat, b: nat)
    requires b >= 1
    ensures a * b >= a
  {
  }

  /** The product of the radii of levels 0 through `k` is coeff[0] times the factor of `k`. */
  lemma {:induction false} PrefixProduct(coeff: seq<byte>, k: nat)
    requires k < |coeff|
    ensures Product(coeff[..k + 1]) == coeff[0] * Scale(coeff, k)
  {
    if k == 0 {
      assert coeff[..1][..0] == [];
    } else {
      PrefixProduct(coeff, k - 1);
      assert coeff[..k + 1][..k] == coeff[..k];
      assert coeff[0] * Scale(coeff, k) == (coeff[0] * Scale(coeff, k - 1)) * coeff[k];
    }
  }

  /** While the product of the radii fits a `long`, the product the integer overload accumulates is the exact one. */
  lemma {:induction false} LongProductExact(s: seq<byte>)
    requires forall k :: 1 <= k < |s| ==> s[k] >= 1
    requires Product(s) < LongModulus / 2
    ensures LongProduct(s) == Product(s)
  {
    if s != [] {
      var init := s[..|s| - 1];
      if |s| > 1 {
        MultiplyByAtLeastOne(Product(init), s[|s| - 1]);
      }
      LongProductExact(init);
    }
  }

  /**
   * With no zero radius above level 0, the scan started from coeff[0] times
   * the factor of `k` picks the highest level whose threshold the count
   * reaches, or level 0.
   */
  lemma {:induction false} CountTopLevelExact(coeff: seq<byte>, n: nat, k: nat)
    requires k < |coeff|
    requires forall j :: 1 <= j < |coeff| ==> coeff[j] >= 1
    ensures CountTopLevel(coeff, n, k, coeff[0] * Scale(coeff, k)).Ok?
    ensures var t := CountTopLevel(coeff, n, k, coeff[0] * Scale(coeff, k)).value;
      && t <= k
      && (t == 0 || coeff[0] * Scale(coeff, t) <= n)
      && forall j :: t < j <= k ==> n < coeff[0] * Scale(coeff, j)
    decreases k
  {
    if k > 0 && n < coeff[0] * Scale(coeff, k) {
      assert coeff[0] * Scale(coeff, k) == (coeff[0] * Scale(coeff, k - 1)) * coeff[k];
      ExactDivision(coeff[0] * Scale(coeff, k - 1), coeff[k]);
      CountTopLevelExact(coeff, n, k - 1);
    }
  }

  lemma ExactDivision(a: nat, b: nat)
    requires b > 0
    ensures LongDivide(a * b, b) == a
  {
  }

  /**
   * In a system whose radii product fits a `long`, the integer overload picks
   * the highest level whose threshold, coeff[0] times its factor, the count
   * reaches, or level 0.
   */
  lemma CountLevelOf(cs: CoordinatesSystem, count: nat) returns (t: nat)
    requires |cs.byteCoeff| >= 1
    requires forall j :: 1 <= j < |cs.byteCoeff| ==> cs.byteCoeff[j] >= 1
    requires LongFits(cs)
    ensures CountTopLevel(cs.byteCoeff, count, |cs.byteCoeff| - 1, LongProduct(cs.byteCoeff)) == Ok(t)
    ensures t == 0 || cs.byteCoeff[0] * Scale(cs.byteCoeff, t) <= count
    ensures forall j :: t < j < |cs.byteCoeff| ==> count < cs.byteCoeff[0] * Scale(cs.byteCoeff, j)
  {
    var c := cs.byteCoeff;
    LongProductExact(c);
    PrefixProduct(c, |c| - 1);
    assert c[..|c|] == c;
    CountTopLevelExact(c, count, |c| - 1);
    t := CountTopLevel(c, count, |c| - 1, LongProduct(c)).value;
  }

  /** Appending a radius multiplies the accumulated product by it, in a `long`. */
  lemma LongProductSnoc(s: seq<byte>, x: byte)
    ensures LongProduct(s + [x]) == WrapLong(LongProduct(s) * x)
  {
    assert (s + [x])[..|s|] == s;
  }

  /** 2^62 times 128 wraps to 0 in a `long`. */
  lemma WrapsToZero()
    ensures WrapLong(0x4000_0000_0000_0000 * 128) == 0
  {
  }

  /** The eleven radii of the wrapping system below. */
  const WrappingCoeff: seq<byte> := [1, 64, 128, 128, 128, 128, 128, 128, 128, 128, 128]

  /** The `long` product of the radii 1, 64 and nine times 128: 2^62 times 128 wraps to 0. */
  lemma WrappedProduct()
    ensures LongProduct(WrappingCoeff) == 0
  {
    var p: seq<byte> := [];
    LongProductSnoc(p, 1); p := p + [1];
    LongProductSnoc(p, 64); p := p + [64];
    assert LongProduct(p) == 0x40;
    LongProductSnoc(p, 128); p := p + [128];
    LongProductSnoc(p, 128); p := p + [128];
    LongProductSnoc(p, 128); p := p + [128];
    assert LongProduct(p) == 0x800_0000;
    LongProductSnoc(p, 128); p := p + [128];
    LongProductSnoc(p, 128); p := p + [128];
    LongProductSnoc(p, 128); p := p + [128];
    assert LongProduct(p) == 0x1_0000_0000_0000;
    LongProductSnoc(p, 128); p := p + [128];
    LongProductSnoc(p, 128); p := p + [128];
    assert LongProduct(p) == 0x4000_0000_0000_0000;
    LongProductSnoc(p, 128); p := p + [128];
    WrapsToZero();
    assert p == WrappingCoeff;
  }

  /**
   * Radii 1, 64 and then nine times 128 form a regular system whose radii
   * product, 2^69, wraps to 0 in a `long`. The threshold is then never above
   * a count, so every count starts at the top level: even a count below the
   * first radius is written in eleven bytes.
   */
  lemma WrappedCountThreshold(cs: CoordinatesSystem, count: nat)
    requires cs.byteCoeff == WrappingCoeff && cs.restartValue == 128
    requires count < 64
    ensures Regular(cs) && !LongFits(cs)
    ensures LongProduct(cs.byteCoeff) == 0
    ensures GetBytesFromCount(cs, count).Ok? && |GetBytesFromCount(cs, count).value| == 11
  {
    var c := cs.byteCoeff;
    WrappedProduct();
    WrappingIsRegular(cs);
    ScaleMonotone(c, 1, 10);
    assert Scale(c, 1) == 64;
    CountAtTopLevel(cs, count);
  }

  lemma WrappingIsRegular(cs: CoordinatesSystem)
    requires cs.byteCoeff == WrappingCoeff && cs.restartValue == 128
    ensures Regular(cs) && !LongFits(cs)
  {
    var c := cs.byteCoeff;
    WrappedProduct();
    ScalePositive(c, 10);
    PrefixProduct(c, 10);
    assert c[..11] == c;
    if LongFits(cs) {
      LongProductExact(c);
      assert false;
    }
  }

  /**
   * In a regular system, a count that reaches the `long` threshold of the
   * top level but stays below the top factor is written in as many bytes as
   * there are radii, a digit 0 at the top.
   */
  lemma CountAtTopLevel(cs: CoordinatesSystem, count: nat)
    requires Regular(cs)
    requires LongProduct(cs.byteCoeff) <= count < Scale(cs.byteCoeff, |cs.byteCoeff| - 1)
    ensures GetBytesFromCount(cs, count).Ok? && |GetBytesFromCount(cs, count).value| == |cs.byteCoeff|
  {
    var c := cs.byteCoeff;
    var k := |c| - 1;
    assert CountTopLevel(c, count, k, LongProduct(c)) == Ok(k);
    TopDigitZero(cs, count);
  }

  lemma TopDigitZero(cs: CoordinatesSystem, count: nat)
    requires Regular(cs)
    requires count < Scale(cs.byteCoeff, |cs.byteCoeff| - 1)
    ensures EncodeMagnitude(cs.byteCoeff, cs.restartValue, count, |cs.byteCoeff| - 1).Ok?
  {
    var c := cs.byteCoeff;
    var k := |c| - 1;
    RegularRadii(cs);
    ScalePositive(c, k);
    SmallQuotient(count, Scale(c, k));
    MarkedLevelsRegular(cs, count, k - 1);
  }

  lemma SmallQuotient(a: nat, f: nat)
    requires a < f
    ensures a / f == 0 && a - (a / f) * f == a
  {
  }
}
