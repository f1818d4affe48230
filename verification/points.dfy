/**
 * A point geometry (StPoint): its X and Y coordinates, an optional Z and M,
 * the dimension flags and its ST_Geometry payload, built from a payload,
 * from runs, from values or from well-known text, and written back as
 * well-known text.
 *
 * The M axis has no origin in a coordinates system, so every construction
 * that reaches an M coordinate fails; no point with M can be built.
 */
module Points {
  import opened Errors
  import opened CoordinatesSystems
  import opened CoordinatesSystemHelper
  import opened CoordinatesSystemHelperLaws
  import opened Coordinates
  import opened GeometryHelper
  import opened DotNetText

  /** A point: `hasZ` and `hasM` say whether `z` and `m` are part of it; `bytes` is its payload. */
  datatype Point = Point(x: Coordinate, y: Coordinate, z: Option<Coordinate>, m: Option<Coordinate>,
                         hasZ: bool, hasM: bool, bytes: seq<byte>)

  /** The flags agree with the ordinates present, and M is absent. */
  predicate Consistent(p: Point)
  {
    && (p.hasZ <==> p.z.Some?)
    && !p.hasM && p.m.None?
  }

  /** The runs of a point body: X, Y, then Z and M when present. */
  function PointRuns(x: Coordinate, y: Coordinate, z: Option<Coordinate>, m: Option<Coordinate>): seq<seq<byte>>
  {
    [x.bytes, y.bytes] + (if z.Some? then [z.value.bytes] else []) + (if m.Some? then [m.value.bytes] else [])
  }

  /**
   * The payload of a point (CalculateBytes): the header for the body, then
   * the runs of X, Y, Z and M laid end to end.
   */
  function PointPayload(cs: CoordinatesSystem, x: Coordinate, y: Coordinate, z: Option<Coordinate>, m: Option<Coordinate>): (r: Result<seq<byte>>)
    ensures r.Ok? <==> GetBytesFromCount(cs, |Flatten(PointRuns(x, y, z, m))|).Ok?
    ensures r.Ok? && |GetBytesFromCount(cs, |Flatten(PointRuns(x, y, z, m))|).value| <= 4 ==>
      && RemoveHeader(r.value) == Flatten(PointRuns(x, y, z, m))
      && ExtractHeader(r.value).Ok?
      && GetGeometryDimension(ExtractHeader(r.value).value) == Ok((z.Some?, m.Some?))
  {
    Frame(cs, z.Some?, m.Some?, Flatten(PointRuns(x, y, z, m)))
  }

  /** The coordinate of an optional run, on `axis`. */
  function OptionalFromBytes(cs: CoordinatesSystem, b: Option<seq<byte>>, axis: CoordType): (r: Result<Option<Coordinate>>)
    ensures b.None? ==> r == Ok(None)
    ensures b.Some? ==> (r.Ok? <==> CoordinateFromBytes(cs, b.value, axis).Ok?)
    ensures b.Some? && r.Ok? ==> r.value == Some(CoordinateFromBytes(cs, b.value, axis).value)
  {
    if b.None? then Ok(None)
    else
      var c :- CoordinateFromBytes(cs, b.value, axis);
      Ok(Some(c))
  }

  /** The coordinate of an optional value, on `axis`. */
  function OptionalFromValue(cs: CoordinatesSystem, v: Option<int>, axis: CoordType): (r: Result<Option<Coordinate>>)
    ensures v.None? ==> r == Ok(None)
    ensures v.Some? ==> (r.Ok? <==> CoordinateFromValue(cs, v.value, axis).Ok?)
    ensures v.Some? && r.Ok? ==> r.value == Some(CoordinateFromValue(cs, v.value, axis).value)
  {
    if v.None? then Ok(None)
    else
      var c :- CoordinateFromValue(cs, v.value, axis);
      Ok(Some(c))
  }

  /** The point assembled from its coordinates, its payload computed. */
  function Assemble(cs: CoordinatesSystem, x: Coordinate, y: Coordinate, z: Option<Coordinate>, m: Option<Coordinate>): (r: Result<Point>)
    ensures r.Ok? <==> PointPayload(cs, x, y, z, m).Ok?
    ensures r.Err? ==> r.error == PointPayload(cs, x, y, z, m).error
    ensures r.Ok? ==> r.value == Point(x, y, z, m, z.Some?, m.Some?, PointPayload(cs, x, y, z, m).value)
  {
    var bytes :- PointPayload(cs, x, y, z, m);
    Ok(Point(x, y, z, m, z.Some?, m.Some?, bytes))
  }

  /**
   * The point of four runs (the byte-array constructor): each run decoded on
   * its axis, Z and M only when given, then the payload computed. Given an M
   * run, it fails.
   */
  function PointFromRuns(cs: CoordinatesSystem, x: seq<byte>, y: seq<byte>, z: Option<seq<byte>>, m: Option<seq<byte>>): (r: Result<Point>)
    ensures m.Some? ==> r.Err?
    ensures r.Ok? ==> Consistent(r.value) && (r.value.hasZ <==> z.Some?)
    ensures r.Ok? ==> Ok(r.value.x.value) == GetValueFromBytes(cs, x, X) && r.value.x.bytes == x
    ensures r.Ok? ==> Ok(r.value.y.value) == GetValueFromBytes(cs, y, Y) && r.value.y.bytes == y
    ensures r.Ok? && z.Some? ==> Ok(r.value.z.value.value) == GetValueFromBytes(cs, z.value, Z) && r.value.z.value.bytes == z.value
    ensures r.Ok? ==> PointPayload(cs, r.value.x, r.value.y, r.value.z, None) == Ok(r.value.bytes)
  {
    var cx :- CoordinateFromBytes(cs, x, X);
    var cy :- CoordinateFromBytes(cs, y, Y);
    var cz :- OptionalFromBytes(cs, z, Z);
    var cm :- OptionalFromBytes(cs, m, M);
    Assemble(cs, cx, cy, cz, cm)
  }

  /**
   * The point of its values (the decimal constructor): each value encoded on
   * its axis, Z and M only when given, then the payload computed. Given an M
   * value, it fails with NotSupportedException.
   */
  function PointFromValues(cs: CoordinatesSystem, x: int, y: int, z: Option<int>, m: Option<int>): (r: Result<Point>)
    ensures m.Some? ==> r.Err?
    ensures r.Ok? ==> Consistent(r.value) && (r.value.hasZ <==> z.Some?)
    ensures r.Ok? ==> r.value.x.value == x && r.value.y.value == y
    ensures r.Ok? && z.Some? ==> r.value.z.value.value == z.value
    ensures r.Ok? ==> Ok(r.value.x.bytes) == GetBytesFromValue(cs, x, X) && Ok(r.value.y.bytes) == GetBytesFromValue(cs, y, Y)
    ensures r.Ok? && z.Some? ==> Ok(r.value.z.value.bytes) == GetBytesFromValue(cs, z.value, Z)
    ensures r.Ok? ==> PointPayload(cs, r.value.x, r.value.y, r.value.z, None) == Ok(r.value.bytes)
  {
    var cx :- CoordinateFromValue(cs, x, X);
    var cy :- CoordinateFromValue(cs, y, Y);
    var cz :- OptionalFromValue(cs, z, Z);
    var cm :- OptionalFromValue(cs, m, M);
    Assemble(cs, cx, cy, cz, cm)
  }

  /**
   * The checks on the number of runs of a point body and the coordinates read
   * from them (SetGeometry), given the dimension flags the reader believes.
   * Runs beyond those the flags call for are ignored.
   */
  function PointFromBody(cs: CoordinatesSystem, bytes: seq<byte>, runs: seq<seq<byte>>, hasZ: bool, hasM: bool): (r: Result<Point>)
    ensures r.Ok? ==> 2 <= |runs| <= 4 && (hasZ || hasM ==> |runs| >= 3) && (hasZ && hasM ==> |runs| == 4)
    ensures |runs| < 2 || |runs| > 4 || ((hasZ || hasM) && |runs| < 3) || (hasZ && hasM && |runs| < 4) ==> r == Err(ArgumentException)
    ensures hasM && 2 <= |runs| <= 4 && (|runs| >= 3) && (hasZ ==> |runs| == 4) ==> r.Err?
    ensures r.Ok? ==> !hasM && r.value.hasZ == hasZ && !r.value.hasM && r.value.bytes == bytes
    ensures r.Ok? ==> r.value.x.bytes == runs[0] && Ok(r.value.x.value) == GetValueFromBytes(cs, runs[0], X)
    ensures r.Ok? ==> r.value.y.bytes == runs[1] && Ok(r.value.y.value) == GetValueFromBytes(cs, runs[1], Y)
    ensures r.Ok? ==> (r.value.z.Some? <==> hasZ) && r.value.m.None?
    ensures r.Ok? && hasZ ==> r.value.z.value.bytes == runs[2] && Ok(r.value.z.value.value) == GetValueFromBytes(cs, runs[2], Z)
  {
    if |runs| < 2 then Err(ArgumentException)
    else if (hasZ || hasM) && |runs| < 3 then Err(ArgumentException)
    else if hasZ && hasM && |runs| < 4 then Err(ArgumentException)
    else if |runs| > 4 then Err(ArgumentException)
    else
      var cx :- CoordinateFromBytes(cs, runs[0], X);
      var cy :- CoordinateFromBytes(cs, runs[1], Y);
      var zRun: Option<seq<byte>> := if hasZ then Some(runs[2]) else None;
      var mRun: Option<seq<byte>> := if hasZ && hasM then Some(runs[3]) else if hasM then Some(runs[2]) else None;
      var cz :- OptionalFromBytes(cs, zRun, Z);
      var cm :- OptionalFromBytes(cs, mRun, M);
      Ok(Point(cx, cy, cz, cm, hasZ, hasM, bytes))
  }

  /**
   * The point of a payload as the byte-array constructor reads it: the Z flag
   * comes from the header, but the M flag is assigned to itself and so stays
   * false whatever the header says. The payload is kept as given.
   */
  function PointFromBytes(cs: CoordinatesSystem, bytes: seq<byte>): (r: Result<Point>)
    ensures |bytes| < NbReservedBytes ==> r == Err(IndexOutOfRangeException)
    ensures r.Ok? ==> Consistent(r.value) && r.value.bytes == bytes
    ensures r.Ok? ==> GetGeometryDimension(bytes[..NbReservedBytes]).Ok?
                      && r.value.hasZ == GetGeometryDimension(bytes[..NbReservedBytes]).value.0
                      && !r.value.hasM
    ensures r.Ok? ==>
      var runs := GetEncodedValues(RemoveHeader(bytes));
      && 2 <= |runs| <= 4 && (r.value.hasZ ==> |runs| >= 3)
      && r.value.x.bytes == runs[0] && Ok(r.value.x.value) == GetValueFromBytes(cs, runs[0], X)
      && r.value.y.bytes == runs[1] && Ok(r.value.y.value) == GetValueFromBytes(cs, runs[1], Y)
      && (r.value.z.Some? <==> r.value.hasZ) && r.value.m.None?
      && (r.value.hasZ ==> r.value.z.value.bytes == runs[2] && Ok(r.value.z.value.value) == GetValueFromBytes(cs, runs[2], Z))
    ensures |bytes| >= NbReservedBytes && GetGeometryDimension(bytes[..NbReservedBytes]).Err?
            ==> r == Err(GetGeometryDimension(bytes[..NbReservedBytes]).error)
    ensures |bytes| >= NbReservedBytes && GetGeometryDimension(bytes[..NbReservedBytes]).Ok? ==>
      var runs := GetEncodedValues(RemoveHeader(bytes));
      var hasZ := GetGeometryDimension(bytes[..NbReservedBytes]).value.0;
      |runs| < 2 || |runs| > 4 || (hasZ && |runs| < 3) ==> r == Err(ArgumentException)
  {
    var header :- ExtractHeader(bytes);
    var flags :- GetGeometryDimension(header);
    PointFromBody(cs, bytes, GetEncodedValues(RemoveHeader(bytes)), flags.0, false)
  }

  /**
   * The byte-array constructor with the M flag taken from the header: a
   * payload that announces M is refused, as the M axis is not supported,
   * instead of being read as a point without M.
   */
  function PointFromBytesChecked(cs: CoordinatesSystem, bytes: seq<byte>): (r: Result<Point>)
    ensures |bytes| < NbReservedBytes ==> r == Err(IndexOutOfRangeException)
    ensures r.Ok? ==> Consistent(r.value) && r.value.bytes == bytes
    ensures r.Ok? ==> GetGeometryDimension(bytes[..NbReservedBytes]) == Ok((r.value.hasZ, r.value.hasM))
    ensures r.Ok? ==>
      var runs := GetEncodedValues(RemoveHeader(bytes));
      && 2 <= |runs| <= 4 && (r.value.hasZ ==> |runs| >= 3)
      && r.value.x.bytes == runs[0] && Ok(r.value.x.value) == GetValueFromBytes(cs, runs[0], X)
      && r.value.y.bytes == runs[1] && Ok(r.value.y.value) == GetValueFromBytes(cs, runs[1], Y)
      && (r.value.z.Some? <==> r.value.hasZ) && r.value.m.None?
      && (r.value.hasZ ==> r.value.z.value.bytes == runs[2] && Ok(r.value.z.value.value) == GetValueFromBytes(cs, runs[2], Z))
    ensures |bytes| >= NbReservedBytes && GetGeometryDimension(bytes[..NbReservedBytes]).Err?
            ==> r == Err(GetGeometryDimension(bytes[..NbReservedBytes]).error)
    ensures |bytes| >= NbReservedBytes && GetGeometryDimension(bytes[..NbReservedBytes]).Ok? ==>
      var runs := GetEncodedValues(RemoveHeader(bytes));
      var (hasZ, hasM) := GetGeometryDimension(bytes[..NbReservedBytes]).value;
      && (|runs| < 2 || |runs| > 4 || ((hasZ || hasM) && |runs| < 3) || (hasZ && hasM && |runs| < 4) ==> r == Err(ArgumentException))
      && (hasM ==> r.Err?)
  {
    var header :- ExtractHeader(bytes);
    var flags :- GetGeometryDimension(header);
    PointFromBody(cs, bytes, GetEncodedValues(RemoveHeader(bytes)), flags.0, flags.1)
  }

  /**
   * A payload whose header announces M and whose body holds three runs at
   * the origin: the constructor as written reads it as a point without M
   * whose own payload announces no M, while the checked reader refuses it.
   */
  lemma DroppedMeasureFlag(cs: CoordinatesSystem)
    requires Regular(cs)
    ensures var bytes: seq<byte> := [3, 0, 0, 0, 1, 2, 0, 0, 0, 0, 0];
      && GetGeometryDimension(bytes[..NbReservedBytes]) == Ok((false, true))
      && PointFromBytes(cs, bytes).Ok?
      && !PointFromBytes(cs, bytes).value.hasM
      && PointFromBytes(cs, bytes).value.x.value == cs.minX
      && PointFromBytes(cs, bytes).value.y.value == cs.minY
      && PointFromBytesChecked(cs, bytes) == Err(NotSupportedException)
  {
    var bytes: seq<byte> := [3, 0, 0, 0, 1, 2, 0, 0, 0, 0, 0];
    var runs := MeasureSampleRuns(bytes);
    OriginDecodes(cs, X);
    OriginDecodes(cs, Y);
    MeasureSampleRead(cs, bytes, runs);
    MeasureSampleRefused(cs, bytes, runs);
  }

  /** The sample payload: a header announcing M only, then three one-byte runs 0. */
  lemma MeasureSampleRuns(bytes: seq<byte>) returns (runs: seq<seq<byte>>)
    requires bytes == [3, 0, 0, 0, 1, 2, 0, 0, 0, 0, 0]
    ensures |bytes| >= NbReservedBytes
    ensures GetGeometryDimension(bytes[..NbReservedBytes]) == Ok((false, true))
    ensures runs == GetEncodedValues(RemoveHeader(bytes)) && runs == [[0], [0], [0]]
  {
    var zero: seq<byte> := [0];
    assert bytes[..NbReservedBytes] == [3, 0, 0, 0, 1, 2, 0, 0];
    assert RemoveHeader(bytes) == zero + zero + zero;
    assert Terminated(zero);
    runs := [zero, zero, zero];
    assert Flatten(runs[2..]) == zero by {
      assert |runs[2..][1..]| == 0;
    }
    assert Flatten(runs[1..]) == zero + zero by {
      assert runs[1..][1..] == runs[2..];
    }
    assert Flatten(runs) == zero + zero + zero;
    SplitOfJoin(runs);
  }

  /** The as-written reader takes the sample as a point at the X and Y origins, without M. */
  lemma MeasureSampleRead(cs: CoordinatesSystem, bytes: seq<byte>, runs: seq<seq<byte>>)
    requires |bytes| >= NbReservedBytes
    requires GetGeometryDimension(bytes[..NbReservedBytes]) == Ok((false, true))
    requires runs == GetEncodedValues(RemoveHeader(bytes)) && runs == [[0], [0], [0]]
    requires GetValueFromBytes(cs, [0], X) == Ok(GetMin(cs, X).value)
    requires GetValueFromBytes(cs, [0], Y) == Ok(GetMin(cs, Y).value)
    ensures PointFromBytes(cs, bytes).Ok?
    ensures !PointFromBytes(cs, bytes).value.hasM
    ensures PointFromBytes(cs, bytes).value.x.value == cs.minX
    ensures PointFromBytes(cs, bytes).value.y.value == cs.minY
  {
    assert PointFromBytes(cs, bytes) == PointFromBody(cs, bytes, runs, false, false);
  }

  /** The checked reader refuses the sample, as its header announces M. */
  lemma MeasureSampleRefused(cs: CoordinatesSystem, bytes: seq<byte>, runs: seq<seq<byte>>)
    requires |bytes| >= NbReservedBytes
    requires GetGeometryDimension(bytes[..NbReservedBytes]) == Ok((false, true))
    requires runs == GetEncodedValues(RemoveHeader(bytes)) && runs == [[0], [0], [0]]
    requires GetValueFromBytes(cs, [0], X) == Ok(GetMin(cs, X).value)
    requires GetValueFromBytes(cs, [0], Y) == Ok(GetMin(cs, Y).value)
    ensures PointFromBytesChecked(cs, bytes) == Err(NotSupportedException)
  {
    assert PointFromBytesChecked(cs, bytes) == PointFromBody(cs, bytes, runs, false, true);
  }

  /** The one-byte run 0 decodes to the origin of a regular system's X or Y axis. */
  lemma OriginDecodes(cs: CoordinatesSystem, axis: CoordType)
    requires Regular(cs) && (axis == X || axis == Y)
    ensures GetValueFromBytes(cs, [0], axis) == Ok(GetMin(cs, axis).value)
  {
    ScalePositive(cs.byteCoeff, |cs.byteCoeff| - 1);
    OriginEncodesAsZero(cs, axis);
    RoundTrip(cs, GetMin(cs, axis).value, axis);
  }

  /**
   * The well-known text of a point: "POINT", then " Z", " M" or " ZM" as it
   * has Z and M, then the vertex text in parentheses.
   */
  function PointToString(fmt: int -> string, p: Point): string
  {
    WktPrefix("POINT", p.hasZ, p.hasM) + " (" + GetCoordinateWkt(fmt, p.x, p.y, p.z, p.m, p.hasZ, p.hasM) + ")"
  }

  /** Reads the ordinate at `k` of the split text: missing is an index error, unreadable a format error. */
  function ParseAt(parse: string -> Option<int>, tokens: seq<string>, k: nat): (r: Result<int>)
    ensures k >= |tokens| ==> r == Err(IndexOutOfRangeException)
    ensures k < |tokens| && parse(tokens[k]).None? ==> r == Err(FormatException)
    ensures k < |tokens| && parse(tokens[k]).Some? ==> r == Ok(parse(tokens[k]).value)
  {
    if k >= |tokens| then Err(IndexOutOfRangeException)
    else if parse(tokens[k]).None? then Err(FormatException)
    else Ok(parse(tokens[k]).value)
  }

  /**
   * The point of the ordinate tokens of one vertex: X and Y first, then Z and
   * M as the flags say, each read in turn; then the point of those values.
   */
  function PointFromTokens(cs: CoordinatesSystem, parse: string -> Option<int>, tokens: seq<string>, hasZ: bool, hasM: bool): (r: Result<Point>)
    ensures hasM ==> r.Err?
    ensures |tokens| < 2 || (hasZ && |tokens| < 3) ==> r.Err?
    ensures r.Ok? ==> Consistent(r.value) && r.value.hasZ == hasZ
    ensures r.Ok? ==>
      && Some(r.value.x.value) == parse(tokens[0])
      && Some(r.value.y.value) == parse(tokens[1])
      && (hasZ ==> Some(r.value.z.value.value) == parse(tokens[2]))
  {
    var x :- ParseAt(parse, tokens, 0);
    var y :- ParseAt(parse, tokens, 1);
    var z :- if hasZ then (var v :- ParseAt(parse, tokens, 2); Ok(Some(v))) else Ok(None);
    var m :- if hasM then (var v :- ParseAt(parse, tokens, if hasZ then 3 else 2); Ok(Some(v))) else Ok(None);
    PointFromValues(cs, x, y, z, m)
  }

  /**
   * The point of a well-known text (the string constructor): any Z in the
   * text sets the Z flag and any M the M flag; the ordinates are the
   * space-separated tokens left once the keyword, the flag letters and the
   * parentheses are gone.
   */
  function PointFromWkt(cs: CoordinatesSystem, parse: string -> Option<int>, wkt: string): (r: Result<Point>)
    ensures 'M' in ToUpper(wkt) ==> r.Err?
    ensures |Split(CoordinatesText("POINT", wkt), ' ')| < 2 ==> r.Err?
    ensures r.Ok? ==> Consistent(r.value) && (r.value.hasZ <==> 'Z' in ToUpper(wkt))
    ensures r.Ok? ==>
      var tokens := Split(CoordinatesText("POINT", wkt), ' ');
      && Some(r.value.x.value) == parse(tokens[0])
      && Some(r.value.y.value) == parse(tokens[1])
      && (r.value.hasZ ==> |tokens| >= 3 && Some(r.value.z.value.value) == parse(tokens[2]))
  {
    var upper := ToUpper(wkt);
    PointFromTokens(cs, parse, Split(CoordinatesText("POINT", wkt), ' '), 'Z' in upper, 'M' in upper)
  }
}
