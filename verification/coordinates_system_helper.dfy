/**
 * The variable-length integer codec of one coordinate (StCoordinatesSystemHelper).
 *
 * A value is written as its distance from the axis origin, expanded in the
 * mixed radix given by the coordinate system's radii. The run holds the
 * least significant digit first; every byte but the last carries the restart
 * marker, and a negative distance adds the level-1 radius to byte 0.
 */
module CoordinatesSystemHelper {
  import opened Errors
  import opened CoordinatesSystems

  /**
   * Level selection of the decimal overload: scanning down from level `k`, the
   * first level whose factor does not exceed `a`, or level 0.
   */
  function TopLevel(coeff: seq<byte>, a: nat, k: nat): (t: nat)
    requires k < |coeff|
    ensures t <= k
    ensures t == 0 || Scale(coeff, t) <= a
    ensures forall j :: t < j <= k ==> a < Scale(coeff, j)
    decreases k
  {
    if k > 0 && a < Scale(coeff, k) then TopLevel(coeff, a, k - 1) else k
  }

  /** The number of values of a C# `long`; its arithmetic is taken modulo this. */
  const LongModulus: int := 0x1_0000_0000_0000_0000

  /** A mathematical integer as a C# `long` holds it: unchecked, two's-complement wrap-around. */
  function WrapLong(x: int): (w: int)
    ensures -LongModulus / 2 <= w < LongModulus / 2
    ensures (x - w) % LongModulus == 0
    ensures -LongModulus / 2 <= x < LongModulus / 2 ==> w == x
  {
    var m := x % LongModulus;
    if m < LongModulus / 2 then m else m - LongModulus
  }

  /** C# division of a `long` by a positive divisor, which truncates toward zero. */
  function LongDivide(a: int, b: nat): (q: int)
    requires b > 0
    ensures a >= 0 ==> q * b <= a < q * b + b
    ensures a < 0 ==> q * b - b < a <= q * b
  {
    if a >= 0 then a / b else -((-a) / b)
  }

  /** The product of the radii accumulated in a `long`, in array order, as the integer overload computes it. */
  function LongProduct(s: seq<byte>): (p: int)
    ensures -LongModulus / 2 <= p < LongModulus / 2
  {
    if s == [] then 1 else WrapLong(LongProduct(s[..|s| - 1]) * s[|s| - 1])
  }

  /** The product of all radii fits a `long`, so the integer overload's threshold never wraps. */
  predicate LongFits(cs: CoordinatesSystem)
  {
    Product(cs.byteCoeff) < LongModulus / 2
  }

  /**
   * Level selection of the integer overload: from level `k` down, while the
   * count is below the running `long` threshold, the threshold is divided by
   * the radius of the level (a zero radius is a DivideByZeroException) and the
   * level drops. The scan starts from the product of all radii, so at level `j`
   * the threshold is coeff[0] times the factor of `j` as long as nothing wraps.
   */
  function CountTopLevel(coeff: seq<byte>, n: nat, k: nat, threshold: int): (r: Result<nat>)
    requires k < |coeff|
    ensures r.Ok? ==> r.value <= k
    ensures r.Err? ==> r.error == DivideByZeroException
    ensures k == 0 || n >= threshold ==> r == Ok(k)
    decreases k
  {
    if k > 0 && n < threshold then
      if coeff[k] == 0 then Err(DivideByZeroException)
      else CountTopLevel(coeff, n, k - 1, LongDivide(threshold, coeff[k]))
    else Ok(k)
  }

  /** The digits carried by a run whose every byte holds the restart marker `r`. */
  function Unmarked(bs: seq<byte>, r: int): (ds: seq<int>)
    ensures |ds| == |bs|
  {
    seq(|bs|, i requires 0 <= i < |bs| => bs[i] - r)
  }

  /** The digits of an unsigned run: every byte but the last less the marker `r`, the last as it is. */
  function RunDigits(bs: seq<byte>, r: int): (ds: seq<int>)
    ensures |ds| == |bs|
  {
    seq(|bs|, i requires 0 <= i < |bs| => if i < |bs| - 1 then bs[i] - r else bs[i])
  }

  /** The number a digit sequence stands for: digit `i` weighs `Scale(coeff, i)`. */
  function Weighted(coeff: seq<byte>, ds: seq<int>): int
    requires |ds| <= |coeff|
  {
    if ds == [] then 0
    else Weighted(coeff, ds[..|ds| - 1]) + ds[|ds| - 1] * Scale(coeff, |ds| - 1)
  }

  /** Appending a digit adds its weight at the next level. */
  lemma WeightedAppend(coeff: seq<byte>, ds: seq<int>, d: int)
    requires |ds| < |coeff|
    ensures Weighted(coeff, ds + [d]) == Weighted(coeff, ds) + d * Scale(coeff, |ds|)
  {
    assert (ds + [d])[..|ds|] == ds;
  }

  /** The quotient of `rest` by a positive factor leaves a remainder below the factor. */
  lemma Remainder(rest: nat, f: nat)
    requires f > 0
    ensures 0 <= rest / f && 0 <= rest - (rest / f) * f < f
  {
    assert rest == (rest / f) * f + rest % f;
  }

  /** A digit with the marker added that does not wrap below the marker did not wrap at all. */
  lemma MarkerAdded(d: nat, r: byte)
    requires d <= 255 && (d + r) % 256 >= r
    ensures (d + r) % 256 == d + r
  {
  }

  /** Appending a marked byte to a marked run adds its digit at the next level. */
  lemma UnmarkedAppend(coeff: seq<byte>, lower: seq<byte>, r: byte, b: byte)
    requires |lower| < |coeff|
    ensures Weighted(coeff, Unmarked(lower + [b], r)) == Weighted(coeff, Unmarked(lower, r)) + (b - r) * Scale(coeff, |lower|)
  {
    UnmarkedSplit(lower, r, b);
    WeightedAppend(coeff, Unmarked(lower, r), b - r);
  }

  lemma UnmarkedSplit(lower: seq<byte>, r: byte, b: byte)
    ensures Unmarked(lower + [b], r) == Unmarked(lower, r) + [b - r]
  {
    var u, v := Unmarked(lower + [b], r), Unmarked(lower, r) + [b - r];
    forall j | 0 <= j < |u|
      ensures u[j] == v[j]
    {
      if j < |lower| {
        assert (lower + [b])[j] == lower[j];
      }
    }
  }

  /** Appending the unmarked top byte to a marked run gives the digits of an unsigned run. */
  lemma RunDigitsAppend(coeff: seq<byte>, lower: seq<byte>, r: byte, d: byte)
    requires |lower| < |coeff|
    ensures Weighted(coeff, RunDigits(lower + [d], r)) == Weighted(coeff, Unmarked(lower, r)) + d * Scale(coeff, |lower|)
  {
    RunDigitsSplit(lower, r, d);
    WeightedAppend(coeff, Unmarked(lower, r), d);
  }

  lemma RunDigitsSplit(lower: seq<byte>, r: byte, d: byte)
    ensures RunDigits(lower + [d], r) == Unmarked(lower, r) + [d]
  {
    var u, v := RunDigits(lower + [d], r), Unmarked(lower, r) + [d];
    forall j | 0 <= j < |u|
      ensures u[j] == v[j]
    {
      if j < |lower| {
        assert (lower + [d])[j] == lower[j];
      }
    }
  }

  /**
   * The bytes of levels 0 through `i` of the remainder `rest`, least significant
   * first. Each is `floor(rest / factor)` plus the restart marker; a digit over 255
   * is an OverflowException, a marker addition that wraps below the marker an
   * IndexOutOfRangeException. Level 0 weighs one unit, so nothing is left over.
   */
  function MarkedLevels(coeff: seq<byte>, r: byte, rest: nat, i: int): (res: Result<seq<byte>>)
    requires -1 <= i < |coeff|
    requires i >= 0 || rest == 0
    ensures res.Ok? ==> |res.value| == i + 1
    ensures res.Ok? ==> forall j :: 0 <= j <= i ==> res.value[j] >= r
    ensures res.Ok? ==> Weighted(coeff, Unmarked(res.value, r)) == rest
    decreases i + 1
  {
    if i < 0 then Ok([])
    else
      var f := Scale(coeff, i);
      if f == 0 then Err(DivideByZeroException)
      else
        var d := rest / f;
        if d > 255 then Err(OverflowException)
        else
          var b: byte := (d + r) % 256;
          if b < r then Err(IndexOutOfRangeException)
          else
            Remainder(rest, f);
            MarkerAdded(d, r);
            var lower :- MarkedLevels(coeff, r, rest - d * f, i - 1);
            UnmarkedAppend(coeff, lower, r, b);
            Ok(lower + [b])
  }

  /**
   * The unsigned run of a magnitude `a` with top level `k`: the top digit
   * unmarked at the end, the lower levels marked before it.
   */
  function EncodeMagnitude(coeff: seq<byte>, r: byte, a: nat, k: nat): (res: Result<seq<byte>>)
    requires k < |coeff|
    ensures res.Ok? ==> |res.value| == k + 1
    ensures res.Ok? ==> forall j :: 0 <= j < k ==> res.value[j] >= r
    ensures res.Ok? ==> Weighted(coeff, RunDigits(res.value, r)) == a
  {
    var f := Scale(coeff, k);
    if f == 0 then Err(DivideByZeroException)
    else
      var d := a / f;
      if d > 255 then Err(OverflowException)
      else
        Remainder(a, f);
        var lower :- MarkedLevels(coeff, r, a - d * f, k - 1);
        RunDigitsAppend(coeff, lower, r, d);
        Ok(lower + [d])
  }

  /**
   * Flags a run as negative by adding the level-1 radius to byte 0 (with byte
   * wrap-around). A lone byte must not exceed the radius; the first byte of a
   * longer run must lie between the marker and the marker plus the radius.
   */
  function SetNegative(coeff: seq<byte>, r: byte, bytes: seq<byte>): (res: Result<seq<byte>>)
    ensures res.Ok? <==>
      && |coeff| >= 2
      && ((|bytes| == 1 && bytes[0] <= coeff[1])
          || (|bytes| >= 2 && r <= bytes[0] <= r + coeff[1]))
    ensures res.Ok? ==> |res.value| == |bytes| && res.value[1..] == bytes[1..]
    ensures res.Ok? ==> res.value[0] == (bytes[0] as int + coeff[1] as int) % 256
  {
    if |bytes| == 1 then
      if |coeff| < 2 then Err(IndexOutOfRangeException)
      else if bytes[0] > coeff[1] then Err(ArgumentException)
      else Ok([(bytes[0] as int + coeff[1] as int) % 256])
    else if |bytes| == 0 then Err(ArgumentOutOfRangeException)
    else if bytes[0] < r then Err(ArgumentException)
    else if |coeff| < 2 then Err(IndexOutOfRangeException)
    else if bytes[0] > r + coeff[1] then Err(ArgumentException)
    else Ok([(bytes[0] as int + coeff[1] as int) % 256] + bytes[1..])
  }

  /**
   * Reads the sign of a run and the level-0 digit under it. A lone byte is
   * negative when it reaches the level-1 radius; byte 0 of a longer run when
   * it reaches the radius plus the marker. The digit is byte 0 less whatever
   * flag and marker it carried (with byte wrap-around).
   */
  function IsNegative(coeff: seq<byte>, r: byte, bytes: seq<byte>): (res: Result<(bool, byte)>)
    ensures res.Ok? <==> |coeff| >= 2 && |bytes| >= 1
    ensures res.Err? ==> res.error == IndexOutOfRangeException
    ensures res.Ok? && |bytes| == 1 ==>
      && (res.value.0 <==> bytes[0] >= coeff[1])
      && res.value.1 == (if res.value.0 then bytes[0] - coeff[1] else bytes[0])
    ensures res.Ok? && |bytes| >= 2 ==>
      && (res.value.0 <==> bytes[0] >= coeff[1] + r)
      && res.value.1 == (if res.value.0 then bytes[0] - coeff[1] - r else (bytes[0] as int - r as int) % 256)
  {
    if |bytes| == 1 then
      if |coeff| < 2 then Err(IndexOutOfRangeException)
      else if bytes[0] >= coeff[1] then Ok((true, bytes[0] - coeff[1]))
      else Ok((false, bytes[0]))
    else if |coeff| < 2 then Err(IndexOutOfRangeException)
    else if |bytes| == 0 then Err(IndexOutOfRangeException)
    else
      var negativeValue := coeff[1] + r;
      if bytes[0] >= negativeValue then Ok((true, bytes[0] - negativeValue))
      else Ok((false, (bytes[0] as int - r as int) % 256))
  }

  /**
   * The digit the decoder reads from byte `j >= 1`: the byte less the marker
   * (with wrap-around) when it reaches the radius of the next level, else as it is.
   */
  function Normalize(coeff: seq<byte>, r: byte, b: byte, j: nat): byte
    requires j + 1 < |coeff|
  {
    if b >= coeff[j + 1] then (b as int - r as int) % 256 else b
  }

  /** The digits the decoder reads: `first` at level 0, then every later byte normalized. */
  function DecodedDigits(coeff: seq<byte>, r: byte, bytes: seq<byte>, first: byte): (ds: seq<int>)
    requires |bytes| < |coeff|
    ensures |ds| == |bytes|
  {
    seq(|bytes|, j requires 0 <= j < |bytes| => if j == 0 then first as int else Normalize(coeff, r, bytes[j], j) as int)
  }

  /**
   * Decodes a run: the weighted digits give the distance from the axis origin,
   * below it when the run is flagged negative. The M axis is not supported, an
   * empty run or one of `|byteCoeff|` bytes or more reads past an array.
   */
  function GetValueFromBytes(cs: CoordinatesSystem, bytes: seq<byte>, axis: CoordType): (res: Result<int>)
    ensures axis == M ==> res == Err(NotSupportedException)
    ensures res.Ok? <==>
      axis != M && |cs.byteCoeff| >= 2 && 1 <= |bytes| < |cs.byteCoeff| && GetMin(cs, axis).Ok?
  {
    if axis == M then Err(NotSupportedException)
    else
      var sign :- IsNegative(cs.byteCoeff, cs.restartValue, bytes);
      if |bytes| >= |cs.byteCoeff| then Err(IndexOutOfRangeException)
      else
        var magnitude := Weighted(cs.byteCoeff, DecodedDigits(cs.byteCoeff, cs.restartValue, bytes, sign.1));
        var min :- GetMin(cs, axis);
        Ok(if sign.0 then min - magnitude else min + magnitude)
  }

  /**
   * Encodes a value as a run: its distance from the axis origin in the mixed
   * radix, flagged negative when the value lies below the origin.
   */
  function GetBytesFromValue(cs: CoordinatesSystem, v: int, axis: CoordType): (res: Result<seq<byte>>)
    ensures axis == M ==> res == Err(NotSupportedException)
    ensures axis != M && GetMin(cs, axis).Err? ==> res == Err(ArgumentException)
    ensures res.Ok? ==> 1 <= |res.value| <= |cs.byteCoeff|
    ensures res.Ok? && v >= GetMin(cs, axis).value ==>
      && (forall j :: 0 <= j < |res.value| - 1 ==> res.value[j] >= cs.restartValue)
      && Weighted(cs.byteCoeff, RunDigits(res.value, cs.restartValue)) == v - GetMin(cs, axis).value
  {
    if axis == M then Err(NotSupportedException)
    else
      var min :- GetMin(cs, axis);
      var offset := v - min;
      var a := if offset < 0 then -offset else offset;
      if |cs.byteCoeff| == 0 then Err(IndexOutOfRangeException)
      else
        var k := TopLevel(cs.byteCoeff, a, |cs.byteCoeff| - 1);
        var magnitude :- EncodeMagnitude(cs.byteCoeff, cs.restartValue, a, k);
        if offset < 0 then SetNegative(cs.byteCoeff, cs.restartValue, magnitude) else Ok(magnitude)
  }

  /**
   * The integer overload, used for the body length in a header: the same
   * digit expansion with no origin and no sign.
   */
  function GetBytesFromCount(cs: CoordinatesSystem, count: nat): (res: Result<seq<byte>>)
    ensures res.Ok? ==> 1 <= |res.value| <= |cs.byteCoeff|
    ensures res.Ok? ==> forall j :: 0 <= j < |res.value| - 1 ==> res.value[j] >= cs.restartValue
    ensures res.Ok? ==> Weighted(cs.byteCoeff, RunDigits(res.value, cs.restartValue)) == count
  {
    if |cs.byteCoeff| == 0 then Err(IndexOutOfRangeException)
    else
      var k :- CountTopLevel(cs.byteCoeff, count, |cs.byteCoeff| - 1, LongProduct(cs.byteCoeff));
      EncodeMagnitude(cs.byteCoeff, cs.restartValue, count, k)
  }
}
