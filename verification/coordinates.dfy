/**
 * One ordinate of a geometry (StCoordinate): a value together with the run
 * that encodes it, built from either side, and its decimal text.
 *
 * Decimal formatting with the "0.####" pattern and `Convert.ToDecimal` are
 * parameters: `fmt` renders a value in resolution units as text, `parse`
 * reads such text back (`None` where `Convert.ToDecimal` raises a
 * FormatException).
 */
module Coordinates {
  import opened Errors
  import opened CoordinatesSystems
  import opened CoordinatesSystemHelper
  import opened CoordinatesSystemHelperLaws

  /** A value in resolution units and the bytes of its run on the coordinate's axis. */
  datatype Coordinate = Coordinate(value: int, bytes: seq<byte>)

  /** The characters the "0.####" pattern of the invariant culture can produce. */
  predicate NumberText(t: string)
  {
    && |t| > 0
    && forall i :: 0 <= i < |t| ==> t[i] in "0123456789.-"
  }

  /**
   * What the round trips through text need of the number formatter and parser.
   * The formatter of StCoordinate.ToString keeps at most four decimals, so it
   * can meet this only when the resolution is 0.0001 or coarser.
   */
  ghost predicate DecimalFormat(fmt: int -> string, parse: string -> Option<int>)
  {
    forall v :: NumberText(fmt(v)) && parse(fmt(v)) == Some(v)
  }

  /** The coordinate read from a run: the run is kept as given, its value decoded. */
  function CoordinateFromBytes(cs: CoordinatesSystem, bytes: seq<byte>, axis: CoordType): (r: Result<Coordinate>)
    ensures r.Ok? <==> GetValueFromBytes(cs, bytes, axis).Ok?
    ensures r.Err? ==> r.error == GetValueFromBytes(cs, bytes, axis).error
    ensures r.Ok? ==> r.value.bytes == bytes && Ok(r.value.value) == GetValueFromBytes(cs, bytes, axis)
  {
    var v :- GetValueFromBytes(cs, bytes, axis);
    Ok(Coordinate(v, bytes))
  }

  /** The coordinate of a value: the value is kept as given, its run encoded. */
  function CoordinateFromValue(cs: CoordinatesSystem, v: int, axis: CoordType): (r: Result<Coordinate>)
    ensures r.Ok? <==> GetBytesFromValue(cs, v, axis).Ok?
    ensures r.Err? ==> r.error == GetBytesFromValue(cs, v, axis).error
    ensures r.Ok? ==> r.value.value == v && Ok(r.value.bytes) == GetBytesFromValue(cs, v, axis)
  {
    var bytes :- GetBytesFromValue(cs, v, axis);
    Ok(Coordinate(v, bytes))
  }

  /** The text of a coordinate: its value formatted with the "0.####" pattern. */
  function CoordinateToString(fmt: int -> string, c: Coordinate): string
  {
    fmt(c.value)
  }

  /**
   * A coordinate built from an in-range value of a regular system is rebuilt
   * identically from its own run, and that run is a complete one.
   */
  lemma CoordinateRoundTrip(cs: CoordinatesSystem, v: int, axis: CoordType)
    requires Regular(cs) && InRange(cs, v, axis)
    ensures CoordinateFromValue(cs, v, axis).Ok?
    ensures CoordinateFromBytes(cs, CoordinateFromValue(cs, v, axis).value.bytes, axis) == CoordinateFromValue(cs, v, axis)
    ensures Terminated(CoordinateFromValue(cs, v, axis).value.bytes)
    ensures |CoordinateFromValue(cs, v, axis).value.bytes| < |cs.byteCoeff|
  {
    EncodeFacts(cs, v, axis);
  }
}
