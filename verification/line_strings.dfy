/**
 * A polyline geometry (StLineString): its points, the dimension flags, the
 * extents of its ordinates and its ST_Geometry payload, built from a
 * payload, from points or from well-known text, and written back as
 * well-known text.
 *
 * The body of a polyline payload lists the X and Y runs of every point,
 * then the Z runs of every point. The first point's runs are absolute; each
 * later run is the difference to the same ordinate of the point before.
 */
module LineStrings {
  import opened Errors
  import opened CoordinatesSystems
  import opened CoordinatesSystemHelper
  import opened CoordinateDifferences
  import opened Coordinates
  import opened GeometryHelper
  import opened DotNetText
  import opened Points

  /** The least and greatest value of one ordinate over the points. */
  datatype Range = Range(min: int, max: int)

  /** The ranges of the four ordinates; an absent dimension keeps the range 0 to 0. */
  datatype Extents = Extents(x: Range, y: Range, z: Range, m: Range)

  /** A polyline: `hasZ` and `hasM` are the line's flags, `bytes` its payload. */
  datatype LineString = LineString(points: seq<Point>, hasZ: bool, hasM: bool, extents: Extents, bytes: seq<byte>)

  /** The value of one ordinate of a point; an absent Z or M reads as 0. */
  function Ordinate(p: Point, axis: CoordType): int
  {
    match axis
    case X => p.x.value
    case Y => p.y.value
    case Z => if p.z.Some? then p.z.value.value else 0
    case M => if p.m.Some? then p.m.value.value else 0
  }

  /** The values of one ordinate over the points, in order. */
  function Ordinates(points: seq<Point>, axis: CoordType): (vs: seq<int>)
    ensures |vs| == |points|
    ensures forall i :: 0 <= i < |points| ==> vs[i] == Ordinate(points[i], axis)
  {
    if points == [] then [] else [Ordinate(points[0], axis)] + Ordinates(points[1..], axis)
  }

  /** Every point carries the ordinates the flags call for. */
  predicate Covered(points: seq<Point>, hasZ: bool, hasM: bool)
  {
    forall i :: 0 <= i < |points| ==> (hasZ ==> points[i].z.Some?) && (hasM ==> points[i].m.Some?)
  }

  /** Every point is a well-formed point without M, with Z exactly when `hasZ`. */
  predicate Vertices(points: seq<Point>, hasZ: bool)
  {
    forall k :: 0 <= k < |points| ==> Consistent(points[k]) && points[k].hasZ == hasZ
  }

  lemma VerticesCons(p: Point, rest: seq<Point>, hasZ: bool)
    requires Consistent(p) && p.hasZ == hasZ && Vertices(rest, hasZ)
    ensures Vertices([p] + rest, hasZ)
  {
    assert forall k :: 1 <= k < |[p] + rest| ==> ([p] + rest)[k] == rest[k - 1];
  }

  /** The payloads of the points from index `i` on split into at least the runs the flags call for. */
  predicate RunsFrom(points: seq<Point>, hasZ: bool, i: nat)
  {
    forall k :: i <= k < |points| ==> |GetEncodedValues(RemoveHeader(points[k].bytes))| >= (if hasZ then 3 else 2)
  }

  lemma RunsFromStep(points: seq<Point>, hasZ: bool, i: nat)
    requires i < |points| && |GetEncodedValues(RemoveHeader(points[i].bytes))| >= (if hasZ then 3 else 2)
    requires RunsFrom(points, hasZ, i + 1)
    ensures RunsFrom(points, hasZ, i)
  {
  }

  /** The range widened to take in `v`. */
  function Include(r: Range, v: int): Range
  {
    Range(if v < r.min then v else r.min, if v > r.max then v else r.max)
  }

  /** The extents of the first point; an ordinate the flags call for but the point lacks is a null dereference. */
  function Start(p: Point, hasZ: bool, hasM: bool): (r: Result<Extents>)
    ensures r.Ok? <==> (hasZ ==> p.z.Some?) && (hasM ==> p.m.Some?)
    ensures r.Err? ==> r.error == NullReferenceException
  {
    if hasZ && p.z.None? then Err(NullReferenceException)
    else if hasM && p.m.None? then Err(NullReferenceException)
    else
      var z := if hasZ then Ordinate(p, Z) else 0;
      var m := if hasM then Ordinate(p, M) else 0;
      Ok(Extents(Range(p.x.value, p.x.value), Range(p.y.value, p.y.value), Range(z, z), Range(m, m)))
  }

  /** The extents widened by one more point, Z and M only when the flags say so. */
  function Widen(e: Extents, p: Point, hasZ: bool, hasM: bool): (r: Result<Extents>)
    ensures r.Ok? <==> (hasZ ==> p.z.Some?) && (hasM ==> p.m.Some?)
    ensures r.Err? ==> r.error == NullReferenceException
  {
    if hasZ && p.z.None? then Err(NullReferenceException)
    else if hasM && p.m.None? then Err(NullReferenceException)
    else
      Ok(Extents(Include(e.x, p.x.value), Include(e.y, p.y.value),
                 if hasZ then Include(e.z, Ordinate(p, Z)) else e.z,
                 if hasM then Include(e.m, Ordinate(p, M)) else e.m))
  }

  /** The extents widened by each of the points in turn. */
  function WidenAll(e: Extents, points: seq<Point>, hasZ: bool, hasM: bool): (r: Result<Extents>)
    ensures r.Ok? <==> Covered(points, hasZ, hasM)
    ensures r.Err? ==> r.error == NullReferenceException
    ensures r.Ok? && !hasZ ==> r.value.z == e.z
    ensures r.Ok? && !hasM ==> r.value.m == e.m
    decreases |points|
  {
    if points == [] then Ok(e)
    else
      var e' :- Widen(e, points[0], hasZ, hasM);
      WidenAll(e', points[1..], hasZ, hasM)
  }

  /**
   * The extents of the points (CalculateMinMaxAndLengthValues, lengths
   * aside): no point is an index error, a missing flagged ordinate a null
   * dereference.
   */
  function ComputeExtents(points: seq<Point>, hasZ: bool, hasM: bool): (r: Result<Extents>)
    ensures r.Ok? <==> |points| > 0 && Covered(points, hasZ, hasM)
    ensures |points| == 0 ==> r == Err(ArgumentOutOfRangeException)
    ensures |points| > 0 && r.Err? ==> r.error == NullReferenceException
    ensures r.Ok? && !hasZ ==> r.value.z == Range(0, 0)
    ensures r.Ok? && !hasM ==> r.value.m == Range(0, 0)
  {
    if |points| == 0 then Err(ArgumentOutOfRangeException)
    else
      var e :- Start(points[0], hasZ, hasM);
      WidenAll(e, points[1..], hasZ, hasM)
  }

  /** The X, Y and Z difference runs of one point to the point before it. */
  type Deltas = (seq<byte>, seq<byte>, seq<byte>)

  /**
   * The runs of one point turned into differences to the runs of the point
   * before, X, then Y, then Z when the line has it; a missing run is an index
   * error.
   */
  function StepDifferences(cs: CoordinatesSystem, runs: seq<seq<byte>>, previous: seq<seq<byte>>, hasZ: bool): (r: Result<Deltas>)
    requires |previous| >= 2 && (hasZ ==> |previous| >= 3)
    ensures r.Ok? ==> |runs| >= (if hasZ then 3 else 2)
    ensures r.Ok? && !hasZ ==> r.value.2 == []
  {
    if |runs| < 1 then Err(ArgumentOutOfRangeException)
    else
      var xs :- GetDifferenceFromBytes(cs, runs[0], previous[0], X);
      if |runs| < 2 then Err(ArgumentOutOfRangeException)
      else
        var ys :- GetDifferenceFromBytes(cs, runs[1], previous[1], Y);
        if hasZ && |runs| < 3 then Err(ArgumentOutOfRangeException)
        else
          var zs :- if hasZ then GetDifferenceFromBytes(cs, runs[2], previous[2], Z) else Ok([]);
          Ok((xs, ys, zs))
  }

  /**
   * The runs of the points after the first, turned into differences to the
   * runs of the point before: the X and Y runs, and apart the Z runs, in
   * point order. Each point's runs are re-read from its own payload.
   */
  function Differences(cs: CoordinatesSystem, points: seq<Point>, hasZ: bool, i: nat, previous: seq<seq<byte>>)
    : (r: Result<(seq<byte>, seq<byte>)>)
    requires |previous| >= 2 && (hasZ ==> |previous| >= 3)
    ensures r.Ok? && !hasZ ==> r.value.1 == []
    ensures r.Ok? ==> RunsFrom(points, hasZ, i)
    decreases |points| - i
  {
    if i >= |points| then Ok(([], []))
    else
      var runs := GetEncodedValues(RemoveHeader(points[i].bytes));
      var step :- StepDifferences(cs, runs, previous, hasZ);
      var rest :- Differences(cs, points, hasZ, i + 1, runs);
      RunsFromStep(points, hasZ, i);
      Ok((step.0 + step.1 + rest.0, step.2 + rest.1))
  }

  /**
   * The body of a polyline: the absolute X and Y runs of the first point, the
   * X and Y differences of the others, then the Z runs laid out the same way.
   */
  function LineBody(cs: CoordinatesSystem, points: seq<Point>, hasZ: bool): (r: Result<seq<byte>>)
    requires |points| > 0
    ensures r.Ok? ==> RunsFrom(points, hasZ, 0)
  {
    var first := GetEncodedValues(RemoveHeader(points[0].bytes));
    if |first| < 2 || (hasZ && |first| < 3) then Err(ArgumentOutOfRangeException)
    else
      var rest :- Differences(cs, points, hasZ, 1, first);
      Ok(first[0] + first[1] + rest.0 + (if hasZ then first[2] + rest.1 else []))
  }

  /**
   * The payload of a polyline (CalculateBytes): M is refused, then the body
   * with its header in front.
   */
  function LinePayload(cs: CoordinatesSystem, points: seq<Point>, hasZ: bool, hasM: bool): (r: Result<seq<byte>>)
    requires |points| > 0
    ensures hasM ==> r == Err(NotSupportedException)
    ensures r.Ok? ==> !hasM && LineBody(cs, points, hasZ).Ok? && GetBytesFromCount(cs, |LineBody(cs, points, hasZ).value|).Ok?
    ensures r.Ok? && |GetBytesFromCount(cs, |LineBody(cs, points, hasZ).value|).value| <= 4 ==>
      && RemoveHeader(r.value) == LineBody(cs, points, hasZ).value
      && ExtractHeader(r.value) == Ok(r.value[..NbReservedBytes])
      && GetGeometryDimension(r.value[..NbReservedBytes]) == Ok((hasZ, false))
  {
    if hasM then Err(NotSupportedException)
    else
      var body :- LineBody(cs, points, hasZ);
      Frame(cs, hasZ, false, body)
  }

  /**
   * The polyline of a list of points: at least two are required; the flags
   * are those of the first point; then the extents and the payload.
   */
  function LineFromPoints(cs: CoordinatesSystem, points: seq<Point>): (r: Result<LineString>)
    ensures |points| < 2 ==> r == Err(ArgumentException)
    ensures |points| >= 2 && points[0].hasM ==> r.Err?
    ensures r.Ok? ==>
      && r.value.points == points
      && r.value.hasZ == points[0].hasZ && !r.value.hasM
      && Covered(points, r.value.hasZ, false)
      && ComputeExtents(points, r.value.hasZ, false) == Ok(r.value.extents)
      && LinePayload(cs, points, r.value.hasZ, false) == Ok(r.value.bytes)
  {
    if |points| < 2 then Err(ArgumentException)
    else
      var hasZ := points[0].hasZ;
      var hasM := points[0].hasM;
      var extents :- ComputeExtents(points, hasZ, hasM);
      var bytes :- LinePayload(cs, points, hasZ, hasM);
      Ok(LineString(points, hasZ, hasM, extents, bytes))
  }

  /**
   * The point after `previous` on a polyline payload: its X and Y runs are the
   * pair at `2 * j`, its Z run the `j`-th of the Z block, each a difference
   * added to the same ordinate of `previous`.
   */
  function DecodeNext(cs: CoordinatesSystem, runs: seq<seq<byte>>, hasZ: bool, zIndex: nat, j: nat, previous: Point): (r: Result<Point>)
    requires 2 * j + 1 < |runs| && (hasZ ==> zIndex + j < |runs|)
    ensures r.Ok? ==> Consistent(r.value) && r.value.hasZ == hasZ
    ensures r.Ok? ==> Ok(r.value.x.bytes) == GetBytesFromDifference(cs, runs[2 * j], previous.x.bytes, X)
    ensures r.Ok? ==> Ok(r.value.y.bytes) == GetBytesFromDifference(cs, runs[2 * j + 1], previous.y.bytes, Y)
    ensures r.Ok? && hasZ ==>
      && previous.z.Some?
      && Ok(r.value.z.value.bytes) == GetBytesFromDifference(cs, runs[zIndex + j], previous.z.value.bytes, Z)
  {
    var xs :- GetBytesFromDifference(cs, runs[2 * j], previous.x.bytes, X);
    var ys :- GetBytesFromDifference(cs, runs[2 * j + 1], previous.y.bytes, Y);
    var zs :- if !hasZ then Ok(None)
              else if previous.z.None? then Err(NullReferenceException)
              else (var b :- GetBytesFromDifference(cs, runs[zIndex + j], previous.z.value.bytes, Z); Ok(Some(b)));
    PointFromRuns(cs, xs, ys, zs, None)
  }

  /** The points `j` to `n - 1` of a polyline payload, each decoded against the one before. */
  function DecodeFrom(cs: CoordinatesSystem, runs: seq<seq<byte>>, hasZ: bool, zIndex: nat, n: nat, j: nat, previous: Point)
    : (r: Result<seq<Point>>)
    requires 2 * n <= |runs| && (hasZ ==> zIndex + n <= |runs|)
    ensures r.Ok? ==> |r.value| == if j <= n then n - j else 0
    ensures r.Ok? ==> Vertices(r.value, hasZ)
    decreases n - j
  {
    if j >= n then Ok([])
    else
      var p :- DecodeNext(cs, runs, hasZ, zIndex, j, previous);
      var rest :- DecodeFrom(cs, runs, hasZ, zIndex, n, j + 1, p);
      VerticesCons(p, rest, hasZ);
      Ok([p] + rest)
  }

  /**
   * The `n` points of a polyline body split into runs, given the flags: the X
   * and Y runs come in pairs, the Z runs start at index `2 * n`. No points at
   * all is an index error.
   */
  function DecodePoints(cs: CoordinatesSystem, runs: seq<seq<byte>>, hasZ: bool, n: nat): (r: Result<seq<Point>>)
    requires if hasZ then |runs| == 3 * n else |runs| == 2 * n
    ensures n == 0 ==> r == Err(ArgumentOutOfRangeException)
    ensures r.Ok? ==> |r.value| == n >= 1
    ensures r.Ok? ==> Vertices(r.value, hasZ)
    ensures r.Ok? ==> PointFromRuns(cs, runs[0], runs[1], if hasZ then Some(runs[2 * n]) else None, None) == Ok(r.value[0])
  {
    if n == 0 then Err(ArgumentOutOfRangeException)
    else
      var zIndex := if hasZ then 2 * n else 0;
      var first :- PointFromRuns(cs, runs[0], runs[1], if hasZ then Some(runs[zIndex]) else None, None);
      var rest :- DecodeFrom(cs, runs, hasZ, zIndex, n, 1, first);
      VerticesCons(first, rest, hasZ);
      Ok([first] + rest)
  }

  /**
   * The polyline of a payload (the byte-array constructor): the flags come
   * from the header; the number of runs must suit them; M is refused; then
   * the points and the extents. The payload is kept as given.
   */
  function LineFromBytes(cs: CoordinatesSystem, bytes: seq<byte>): (r: Result<LineString>)
    ensures |bytes| < NbReservedBytes ==> r == Err(IndexOutOfRangeException)
    ensures r.Ok? ==> r.value.bytes == bytes && !r.value.hasM && |r.value.points| >= 1
    ensures r.Ok? ==> GetGeometryDimension(bytes[..NbReservedBytes]) == Ok((r.value.hasZ, false))
    ensures r.Ok? ==>
      var runs := GetEncodedValues(RemoveHeader(bytes));
      if r.value.hasZ then |runs| == 3 * |r.value.points| else |runs| == 2 * |r.value.points|
    ensures r.Ok? ==> !r.value.hasZ ==> |r.value.points| >= 2
    ensures r.Ok? ==>
      && Covered(r.value.points, r.value.hasZ, false)
      && ComputeExtents(r.value.points, r.value.hasZ, false) == Ok(r.value.extents)
  {
    var header :- ExtractHeader(bytes);
    var flags :- GetGeometryDimension(header);
    LineFromRuns(cs, bytes, GetEncodedValues(RemoveHeader(bytes)), flags.0, flags.1)
  }

  /**
   * The rest of the byte-array constructor, once the header has given the
   * flags: the number of runs must suit them, M is refused, then the points
   * and the extents.
   */
  function LineFromRuns(cs: CoordinatesSystem, bytes: seq<byte>, runs: seq<seq<byte>>, hasZ: bool, hasM: bool)
    : (r: Result<LineString>)
    ensures !hasZ && !hasM && (|runs| < 4 || |runs| % 2 != 0) ==> r == Err(ArgumentException)
    ensures hasZ && hasM && |runs| % 4 != 0 ==> r == Err(ArgumentException)
    ensures (hasZ || hasM) && |runs| % 3 != 0 ==> r == Err(ArgumentException)
    ensures hasM ==> r.Err?
    ensures r.Ok? ==> r.value.bytes == bytes && r.value.hasZ == hasZ && !r.value.hasM && |r.value.points| >= 1
    ensures r.Ok? ==> if hasZ then |runs| == 3 * |r.value.points| else |runs| == 2 * |r.value.points|
    ensures r.Ok? ==> !hasZ ==> |r.value.points| >= 2
    ensures r.Ok? ==>
      && Covered(r.value.points, r.value.hasZ, false)
      && ComputeExtents(r.value.points, r.value.hasZ, false) == Ok(r.value.extents)
  {
    var n := |runs|;
    if !hasZ && !hasM && (n < 4 || n % 2 != 0) then Err(ArgumentException)
    else if hasZ && hasM && n % 4 != 0 then Err(ArgumentException)
    else if (hasZ || hasM) && n % 3 != 0 then Err(ArgumentException)
    else if hasM then Err(NotSupportedException)
    else
      var points :- DecodePoints(cs, runs, hasZ, if hasZ then n / 3 else n / 2);
      var extents :- ComputeExtents(points, hasZ, false);
      Ok(LineString(points, hasZ, false, extents, bytes))
  }

  /** The reader of one vertex text: the point of its space-separated tokens. */
  function VertexReader(cs: CoordinatesSystem, parse: string -> Option<int>, hasZ: bool, hasM: bool): string -> Result<Point>
  {
    text => PointFromTokens(cs, parse, Split(text, ' '), hasZ, hasM)
  }

  /** Every text read in order with `read`; the first failure ends the reading. */
  function ReadAll<T>(read: string -> Result<T>, texts: seq<string>): (r: Result<seq<T>>)
    ensures r.Ok? ==> |r.value| == |texts|
  {
    if texts == [] then Ok([])
    else
      var p :- read(texts[0]);
      var rest :- ReadAll(read, texts[1..]);
      Ok([p] + rest)
  }

  /** The points of the comma-separated vertex texts, each read from its space-separated tokens. */
  function PointsFromTexts(cs: CoordinatesSystem, parse: string -> Option<int>, texts: seq<string>, hasZ: bool, hasM: bool)
    : (r: Result<seq<Point>>)
    ensures r.Ok? ==> |r.value| == |texts|
  {
    ReadAll(VertexReader(cs, parse, hasZ, hasM), texts)
  }

  /**
   * The polyline of a well-known text (the string constructor): any Z sets
   * the Z flag and any M the M flag; every comma-separated vertex is read as
   * a point; then the extents and the payload. No minimum number of points
   * is checked, but at least one is needed.
   */
  function LineFromWkt(cs: CoordinatesSystem, parse: string -> Option<int>, wkt: string): (r: Result<LineString>)
    ensures 'M' in ToUpper(wkt) ==> r.Err?
    ensures Split(CoordinatesText("LINESTRING", wkt), ',') == [] ==> r.Err?
    ensures r.Ok? ==> !r.value.hasM && (r.value.hasZ <==> 'Z' in ToUpper(wkt))
    ensures r.Ok? ==> PointsFromTexts(cs, parse, Split(CoordinatesText("LINESTRING", wkt), ','), r.value.hasZ, false) == Ok(r.value.points)
    ensures r.Ok? ==>
      && |r.value.points| >= 1
      && ComputeExtents(r.value.points, r.value.hasZ, false) == Ok(r.value.extents)
      && LinePayload(cs, r.value.points, r.value.hasZ, false) == Ok(r.value.bytes)
  {
    var upper := ToUpper(wkt);
    var hasZ := 'Z' in upper;
    var hasM := 'M' in upper;
    var points :- PointsFromTexts(cs, parse, Split(CoordinatesText("LINESTRING", wkt), ','), hasZ, hasM);
    var extents :- ComputeExtents(points, hasZ, hasM);
    var bytes :- LinePayload(cs, points, hasZ, hasM);
    Ok(LineString(points, hasZ, hasM, extents, bytes))
  }

  /** The vertex texts of the points, each followed by ", ". */
  function VertexList(fmt: int -> string, points: seq<Point>): string
  {
    if points == [] then ""
    else
      var p := points[0];
      GetCoordinateWkt(fmt, p.x, p.y, p.z, p.m, p.hasZ, p.hasM) + ", " + VertexList(fmt, points[1..])
  }

  /**
   * The well-known text of a polyline: "LINESTRING", then " Z", " M" or " ZM"
   * as it has Z and M, then the vertex texts separated by ", " in parentheses.
   */
  function LineToString(fmt: int -> string, l: LineString): string
  {
    WktPrefix("LINESTRING", l.hasZ, l.hasM) + " (" + TrimEnd(VertexList(fmt, l.points), {' ', ','}) + ")"
  }

  /** The first eight bytes of the payload; fewer is an argument error. */
  function LineHeader(l: LineString): (r: Result<seq<byte>>)
    ensures r.Ok? <==> |l.bytes| >= NbReservedBytes
    ensures r.Err? ==> r.error == ArgumentException
    ensures r.Ok? ==> r.value + RemoveHeader(l.bytes) == l.bytes
  {
    if |l.bytes| < NbReservedBytes then Err(ArgumentException) else Ok(l.bytes[..NbReservedBytes])
  }

  /** The least Z of a polyline; a polyline without Z has none. */
  function LineMinZ(l: LineString): (r: Result<int>)
    ensures r.Ok? <==> l.hasZ
    ensures r.Err? ==> r.error == ArgumentException
    ensures r.Ok? ==> r.value == l.extents.z.min
  {
    if !l.hasZ then Err(ArgumentException) else Ok(l.extents.z.min)
  }

  /** The greatest Z of a polyline; a polyline without Z has none. */
  function LineMaxZ(l: LineString): (r: Result<int>)
    ensures r.Ok? <==> l.hasZ
    ensures r.Err? ==> r.error == ArgumentException
    ensures r.Ok? ==> r.value == l.extents.z.max
  {
    if !l.hasZ then Err(ArgumentException) else Ok(l.extents.z.max)
  }

  /** The least M of a polyline as the getter is written: it checks the Z flag, not the M flag. */
  function LineMinM(l: LineString): (r: Result<int>)
    ensures r.Ok? <==> l.hasZ
    ensures r.Err? ==> r.error == ArgumentException
    ensures r.Ok? ==> r.value == l.extents.m.min
  {
    if !l.hasZ then Err(ArgumentException) else Ok(l.extents.m.min)
  }

  /** The greatest M of a polyline as the getter is written: it checks the Z flag, not the M flag. */
  function LineMaxM(l: LineString): (r: Result<int>)
    ensures r.Ok? <==> l.hasZ
    ensures r.Err? ==> r.error == ArgumentException
    ensures r.Ok? ==> r.value == l.extents.m.max
  {
    if !l.hasZ then Err(ArgumentException) else Ok(l.extents.m.max)
  }

  /** The least M of a polyline, refused exactly when the polyline has no M. */
  function LineMinMChecked(l: LineString): (r: Result<int>)
    ensures r.Ok? <==> l.hasM
    ensures r.Err? ==> r.error == ArgumentException
    ensures r.Ok? ==> r.value == l.extents.m.min
  {
    if !l.hasM then Err(ArgumentException) else Ok(l.extents.m.min)
  }

  /** The greatest M of a polyline, refused exactly when the polyline has no M. */
  function LineMaxMChecked(l: LineString): (r: Result<int>)
    ensures r.Ok? <==> l.hasM
    ensures r.Err? ==> r.error == ArgumentException
    ensures r.Ok? ==> r.value == l.extents.m.max
  {
    if !l.hasM then Err(ArgumentException) else Ok(l.extents.m.max)
  }
}
