/**
 * The payload framing shared by every geometry (StGeometryHelper): the
 * 8-byte header, the split of a body into coordinate runs, and the text of
 * one vertex.
 *
 * A payload is a header followed by a body. The header holds the body
 * length as an unsigned run zero-padded to four bytes, then a byte 1, the
 * dimension byte (1 for Z, plus 2 for M) and two zero bytes.
 */
module GeometryHelper {
  import opened Errors
  import opened CoordinatesSystems
  import opened CoordinatesSystemHelper
  import opened CoordinatesSystemHelperLaws
  import opened Coordinates
  import opened DotNetText

  /** The header length. */
  const NbReservedBytes: nat := 8

  /** The runs laid end to end. */
  function Flatten(runs: seq<seq<byte>>): seq<byte>
  {
    if runs == [] then [] else runs[0] + Flatten(runs[1..])
  }

  lemma FlattenCons(run: seq<byte>, runs: seq<seq<byte>>)
    ensures Flatten([run] + runs) == run + Flatten(runs)
  {
    assert ([run] + runs)[1..] == runs;
  }

  /** The length of the first run of a non-empty body: up to the first byte below 128, or all of it. */
  function FirstRunLength(bytes: seq<byte>): (n: nat)
    requires |bytes| > 0
    ensures 1 <= n <= |bytes|
    ensures forall j :: 0 <= j < n - 1 ==> bytes[j] >= 128
    ensures n < |bytes| ==> bytes[n - 1] < 128
  {
    if bytes[0] < 128 || |bytes| == 1 then 1 else 1 + FirstRunLength(bytes[1..])
  }

  /**
   * Splits a body into runs, each ending at a byte below 128. Trailing bytes
   * that all have the top bit set form a last, unterminated run; no run is
   * empty.
   */
  function GetEncodedValues(bytes: seq<byte>): (runs: seq<seq<byte>>)
    ensures Flatten(runs) == bytes
    decreases |bytes|
  {
    if bytes == [] then []
    else
      var n := FirstRunLength(bytes);
      assert bytes[..n] + bytes[n..] == bytes;
      [bytes[..n]] + GetEncodedValues(bytes[n..])
  }

  /**
   * Runs as a body splits into: none is empty, every one but the last ends at
   * a byte below 128, and every other byte of a run is 128 or more.
   */
  predicate WellSplit(runs: seq<seq<byte>>)
  {
    && (forall k :: 0 <= k < |runs| ==> |runs[k]| > 0)
    && (forall k :: 0 <= k < |runs| - 1 ==> Terminated(runs[k]))
    && (forall k, j :: 0 <= k < |runs| && 0 <= j < |runs[k]| - 1 ==> runs[k][j] >= 128)
  }

  /** The runs of any body are well split. */
  lemma {:induction false} RunsShape(bytes: seq<byte>)
    ensures WellSplit(GetEncodedValues(bytes))
    decreases |bytes|
  {
    if bytes != [] {
      var n := FirstRunLength(bytes);
      var tail := GetEncodedValues(bytes[n..]);
      RunsShape(bytes[n..]);
      assert GetEncodedValues(bytes) == [bytes[..n]] + tail;
      assert tail != [] ==> n < |bytes|;
      WellSplitCons(bytes[..n], tail);
    }
  }

  /** A run that is well formed, and complete when runs follow it, keeps the split well formed. */
  lemma WellSplitCons(run: seq<byte>, tail: seq<seq<byte>>)
    requires |run| > 0 && forall j :: 0 <= j < |run| - 1 ==> run[j] >= 128
    requires tail != [] ==> run[|run| - 1] < 128
    requires WellSplit(tail)
    ensures WellSplit([run] + tail)
  {
    var runs := [run] + tail;
    forall k | 0 <= k < |runs|
      ensures |runs[k]| > 0 && (k < |runs| - 1 ==> Terminated(runs[k]))
      ensures forall j :: 0 <= j < |runs[k]| - 1 ==> runs[k][j] >= 128
    {
      if k > 0 {
        assert runs[k] == tail[k - 1];
      }
    }
  }

  /** The first run of a body that starts with a complete run is that run. */
  lemma FirstRunOfTerminated(run: seq<byte>, rest: seq<byte>)
    requires Terminated(run)
    ensures FirstRunLength(run + rest) == |run|
    decreases |run|
  {
    if |run| > 1 {
      assert (run + rest)[1..] == run[1..] + rest;
      FirstRunOfTerminated(run[1..], rest);
    }
  }

  /** Splitting undoes the concatenation of complete runs. */
  lemma {:induction false} SplitOfJoin(runs: seq<seq<byte>>)
    requires forall k :: 0 <= k < |runs| ==> Terminated(runs[k])
    ensures GetEncodedValues(Flatten(runs)) == runs
  {
    if runs != [] {
      var rest := Flatten(runs[1..]);
      FirstRunOfTerminated(runs[0], rest);
      assert (runs[0] + rest)[..|runs[0]|] == runs[0];
      assert (runs[0] + rest)[|runs[0]|..] == rest;
      SplitOfJoin(runs[1..]);
      assert [runs[0]] + runs[1..] == runs;
    }
  }

  /** The dimension byte: 1 for Z, plus 2 for M. */
  function DimensionByte(hasZ: bool, hasM: bool): byte
  {
    (if hasZ then 1 else 0) + (if hasM then 2 else 0)
  }

  /**
   * The header of a body of `bodyLength` bytes: the length run, padded with
   * zeros to four bytes but never cut, then 1, the dimension byte, 0, 0.
   */
  function GenerateHeader(cs: CoordinatesSystem, hasZ: bool, hasM: bool, bodyLength: nat): (r: Result<seq<byte>>)
    ensures r.Ok? <==> GetBytesFromCount(cs, bodyLength).Ok?
    ensures r.Err? ==> r.error == GetBytesFromCount(cs, bodyLength).error
    ensures r.Ok? ==>
      var count := GetBytesFromCount(cs, bodyLength).value;
      && |r.value| == (if |count| < 4 then 4 else |count|) + 4
      && r.value[..|count|] == count
      && (forall i :: |count| <= i < |r.value| - 4 ==> r.value[i] == 0)
      && r.value[|r.value| - 4..] == [1, DimensionByte(hasZ, hasM), 0, 0]
  {
    var count :- GetBytesFromCount(cs, bodyLength);
    var padding: seq<byte> := if |count| < 4 then seq(4 - |count|, _ => 0) else [];
    Ok(count + padding + [1, DimensionByte(hasZ, hasM), 0, 0])
  }

  /** The first eight bytes of a payload; a shorter payload reads past its end. */
  function ExtractHeader(bytes: seq<byte>): (r: Result<seq<byte>>)
    ensures r.Ok? <==> |bytes| >= NbReservedBytes
    ensures r.Err? ==> r.error == IndexOutOfRangeException
    ensures r.Ok? ==> |r.value| == NbReservedBytes && r.value + RemoveHeader(bytes) == bytes
  {
    if |bytes| < NbReservedBytes then Err(IndexOutOfRangeException) else Ok(bytes[..NbReservedBytes])
  }

  /** The bytes after the header: empty when there are none. */
  function RemoveHeader(bytes: seq<byte>): (r: seq<byte>)
    ensures |bytes| >= NbReservedBytes ==> bytes[..NbReservedBytes] + r == bytes
    ensures |bytes| <= NbReservedBytes ==> r == []
  {
    if |bytes| <= NbReservedBytes then [] else bytes[NbReservedBytes..]
  }

  /**
   * The Z and M flags of a header: exactly eight bytes are required, and the
   * dimension byte must be one of 0 to 3.
   */
  function GetGeometryDimension(header: seq<byte>): (r: Result<(bool, bool)>)
    ensures r.Ok? <==> |header| == NbReservedBytes && header[5] <= 3
    ensures |header| != NbReservedBytes ==> r == Err(ArgumentException)
    ensures |header| == NbReservedBytes && header[5] > 3 ==> r == Err(NotSupportedException)
    ensures r.Ok? ==> DimensionByte(r.value.0, r.value.1) == header[5]
  {
    if |header| != NbReservedBytes then Err(ArgumentException)
    else
      match header[5]
      case 0 => Ok((false, false))
      case 1 => Ok((true, false))
      case 2 => Ok((false, true))
      case 3 => Ok((true, true))
      case _ => Err(NotSupportedException)
  }

  /** The flags written into a header are the flags read back from it. */
  lemma DimensionRoundTrip(hasZ: bool, hasM: bool, header: seq<byte>)
    requires |header| == NbReservedBytes && header[5] == DimensionByte(hasZ, hasM)
    ensures GetGeometryDimension(header) == Ok((hasZ, hasM))
  {
  }

  /**
   * A header generated for a body whose length run fits in four bytes is
   * eight bytes long, is split off the payload intact, and carries the flags.
   */
  lemma HeaderRoundTrip(cs: CoordinatesSystem, hasZ: bool, hasM: bool, body: seq<byte>)
    requires GetBytesFromCount(cs, |body|).Ok? && |GetBytesFromCount(cs, |body|).value| <= 4
    ensures GenerateHeader(cs, hasZ, hasM, |body|).Ok?
    ensures var header := GenerateHeader(cs, hasZ, hasM, |body|).value;
      && |header| == NbReservedBytes
      && ExtractHeader(header + body) == Ok(header)
      && RemoveHeader(header + body) == body
      && GetGeometryDimension(header) == Ok((hasZ, hasM))
  {
    var header := GenerateHeader(cs, hasZ, hasM, |body|).value;
    assert header[5] == header[|header| - 4..][1];
    assert (header + body)[..NbReservedBytes] == header;
    assert (header + body)[NbReservedBytes..] == body;
  }

  /**
   * A body with its header in front. When the length run fits in four bytes,
   * the header is split off again intact and announces the flags.
   */
  function Frame(cs: CoordinatesSystem, hasZ: bool, hasM: bool, body: seq<byte>): (r: Result<seq<byte>>)
    ensures r.Ok? <==> GetBytesFromCount(cs, |body|).Ok?
    ensures r.Err? ==> r.error == GetBytesFromCount(cs, |body|).error
    ensures r.Ok? ==> |r.value| >= NbReservedBytes + |body|
    ensures r.Ok? && |GetBytesFromCount(cs, |body|).value| <= 4 ==>
      && RemoveHeader(r.value) == body
      && ExtractHeader(r.value) == Ok(r.value[..NbReservedBytes])
      && GetGeometryDimension(r.value[..NbReservedBytes]) == Ok((hasZ, hasM))
  {
    match GenerateHeader(cs, hasZ, hasM, |body|)
    case Err(e) => Err(e)
    case Ok(header) =>
      FrameLayout(cs, hasZ, hasM, body, header);
      Ok(header + body)
  }

  /** The layout facts behind `Frame`, for one generated header. */
  lemma FrameLayout(cs: CoordinatesSystem, hasZ: bool, hasM: bool, body: seq<byte>, header: seq<byte>)
    requires GenerateHeader(cs, hasZ, hasM, |body|) == Ok(header)
    ensures |header| >= NbReservedBytes && |header + body| >= NbReservedBytes + |body|
    ensures |GetBytesFromCount(cs, |body|).value| <= 4 ==>
      && RemoveHeader(header + body) == body
      && ExtractHeader(header + body) == Ok(header)
      && header == (header + body)[..NbReservedBytes]
      && GetGeometryDimension(header) == Ok((hasZ, hasM))
  {
    if |GetBytesFromCount(cs, |body|).value| <= 4 {
      HeaderRoundTrip(cs, hasZ, hasM, body);
    }
  }

  /**
   * The head of a well-known text: the keyword, then "Z" and "M" as the flags
   * say after a space, which is trimmed again when there is neither.
   */
  function WktPrefix(keyword: string, hasZ: bool, hasM: bool): string
  {
    TrimEnd(keyword + " " + (if hasZ then "Z" else "") + (if hasM then "M" else ""), {' '})
  }

  /**
   * The ordinates part of a well-known text: upper-cased, with the keyword,
   * every Z and M and both parentheses removed, then trimmed.
   */
  function CoordinatesText(keyword: string, wkt: string): string
    requires |keyword| > 0
  {
    Trim(RemoveAll(RemoveAll(RemoveAll(RemoveAll(RemoveAll(ToUpper(wkt), keyword), "Z"), "M"), "("), ")"))
  }

  /**
   * The text of one vertex: X and Y, then Z and M when the flags say so, each
   * preceded by a space. An absent ordinate behind a set flag is appended as
   * nothing, as `StringBuilder.Append` does with a null object.
   */
  function GetCoordinateWkt(fmt: int -> string, x: Coordinate, y: Coordinate,
                            z: Option<Coordinate>, m: Option<Coordinate>, hasZ: bool, hasM: bool): string
  {
    CoordinateToString(fmt, x) + " " + CoordinateToString(fmt, y)
    + (if hasZ then " " + (if z.Some? then CoordinateToString(fmt, z.value) else "") else "")
    + (if hasM then " " + (if m.Some? then CoordinateToString(fmt, m.value) else "") else "")
  }

  /** The ordinates a vertex text holds, in order. */
  function VertexValues(x: Coordinate, y: Coordinate, z: Option<Coordinate>, m: Option<Coordinate>, hasZ: bool, hasM: bool): seq<int>
    requires hasZ ==> z.Some?
    requires hasM ==> m.Some?
  {
    [x.value, y.value] + (if hasZ then [z.value.value] else []) + (if hasM then [m.value.value] else [])
  }

  lemma JoinCons(t: string, ts: seq<string>, sep: string)
    requires ts != []
    ensures Join([t] + ts, sep) == t + sep + Join(ts, sep)
  {
    assert ([t] + ts)[1..] == ts;
  }

  lemma JoinPair(a: string, b: string, sep: string)
    ensures Join([a, b], sep) == a + sep + b
  {
    assert [a, b][1..] == [b];
  }

  /** The texts of a sequence of values. */
  function Texts(fmt: int -> string, vs: seq<int>): (ts: seq<string>)
    ensures |ts| == |vs|
    ensures forall k :: 0 <= k < |vs| ==> ts[k] == fmt(vs[k])
  {
    seq(|vs|, k requires 0 <= k < |vs| => fmt(vs[k]))
  }

  /** The text of a vertex whose flagged ordinates are present is its ordinates' texts joined by single spaces. */
  lemma VertexTextIsJoin(fmt: int -> string, x: Coordinate, y: Coordinate,
                         z: Option<Coordinate>, m: Option<Coordinate>, hasZ: bool, hasM: bool)
    requires hasZ ==> z.Some?
    requires hasM ==> m.Some?
    ensures GetCoordinateWkt(fmt, x, y, z, m, hasZ, hasM) == Join(Texts(fmt, VertexValues(x, y, z, m, hasZ, hasM)), " ")
  {
    var ts := Texts(fmt, VertexValues(x, y, z, m, hasZ, hasM));
    var fx, fy := fmt(x.value), fmt(y.value);
    if hasZ && hasM {
      var fz, fm := fmt(z.value.value), fmt(m.value.value);
      assert ts == [fx] + ([fy] + [fz, fm]);
      JoinPair(fz, fm, " ");
      JoinCons(fy, [fz, fm], " ");
      JoinCons(fx, [fy] + [fz, fm], " ");
    } else if hasZ || hasM {
      var fw := if hasZ then fmt(z.value.value) else fmt(m.value.value);
      assert ts == [fx] + [fy, fw];
      JoinPair(fy, fw, " ");
      JoinCons(fx, [fy, fw], " ");
    } else {
      assert ts == [fx, fy];
      JoinPair(fx, fy, " ");
    }
  }

  /**
   * Splitting the text of a vertex whose flagged ordinates are present at
   * spaces gives back one number text per ordinate, in order.
   */
  lemma CoordinateWktTokens(fmt: int -> string, x: Coordinate, y: Coordinate,
                            z: Option<Coordinate>, m: Option<Coordinate>, hasZ: bool, hasM: bool)
    requires forall v :: NumberText(fmt(v))
    requires hasZ ==> z.Some?
    requires hasM ==> m.Some?
    ensures Split(GetCoordinateWkt(fmt, x, y, z, m, hasZ, hasM), ' ') == Texts(fmt, VertexValues(x, y, z, m, hasZ, hasM))
  {
    var vs := VertexValues(x, y, z, m, hasZ, hasM);
    var ts := Texts(fmt, vs);
    VertexTextIsJoin(fmt, x, y, z, m, hasZ, hasM);
    forall k | 0 <= k < |ts|
      ensures |ts[k]| > 0 && ' ' !in ts[k]
    {
      assert NumberText(fmt(vs[k]));
    }
    SplitJoin(ts, ' ');
  }
}
