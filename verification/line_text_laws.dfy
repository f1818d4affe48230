/**
 * The well-known text of a polyline read back by the string constructor:
 * a polyline built from points that the decimal constructor produces is
 * rebuilt identically from its own text.
 */
module LineTextLaws {
  import opened Errors
  import opened CoordinatesSystems
  import opened Coordinates
  import opened GeometryHelper
  import opened DotNetText
  import opened Points
  import opened PointLaws
  import opened WktLaws
  import opened LineStrings

  /** The vertex texts of the points, in order. */
  function VertexTexts(fmt: int -> string, points: seq<Point>): (ts: seq<string>)
    ensures |ts| == |points|
    ensures forall k :: 0 <= k < |points| ==>
      ts[k] == GetCoordinateWkt(fmt, points[k].x, points[k].y, points[k].z, points[k].m, points[k].hasZ, points[k].hasM)
  {
    seq(|points|, k requires 0 <= k < |points| =>
      GetCoordinateWkt(fmt, points[k].x, points[k].y, points[k].z, points[k].m, points[k].hasZ, points[k].hasM))
  }

  /** The list of vertex texts is their join with ", ", followed by one more ", ". */
  lemma {:induction false} VertexListJoin(fmt: int -> string, points: seq<Point>)
    requires points != []
    ensures VertexList(fmt, points) == Join(VertexTexts(fmt, points), ", ") + ", "
    decreases |points|
  {
    var ts := VertexTexts(fmt, points);
    if |points| == 1 {
      assert ts == [ts[0]];
      assert VertexList(fmt, points) == ts[0] + ", " + "";
    } else {
      VertexListJoin(fmt, points[1..]);
      assert VertexTexts(fmt, points[1..]) == ts[1..];
      var rest := Join(ts[1..], ", ");
      assert Join(ts, ", ") == ts[0] + ", " + rest;
      assert VertexList(fmt, points) == ts[0] + ", " + (rest + ", ");
    }
  }

  /** Texts that start and end with a number character, joined with ", ", start and end the same way. */
  lemma {:induction false} JoinVertexText(ts: seq<string>)
    requires |ts| >= 1
    requires forall k :: 0 <= k < |ts| ==> VertexText(ts[k]) && '-' <= ts[k][|ts[k]| - 1] <= '9'
    ensures var j := Join(ts, ", "); VertexText(j) && '-' <= j[|j| - 1] <= '9'
  {
    if |ts| > 1 {
      JoinVertexText(ts[1..]);
      var rest := Join(ts[1..], ", ");
      var j := ts[0] + ", " + rest;
      assert Join(ts, ", ") == j;
      assert j[|j| - 1] == rest[|rest| - 1];
      assert forall ch :: ch in ", " ==> ch in TextChars;
    } else {
      assert Join(ts, ", ") == ts[0];
    }
  }

  /** The vertex texts of points without M, whose numbers are written as number texts. */
  lemma VertexTextsAreVertexTexts(fmt: int -> string, points: seq<Point>)
    requires forall v :: NumberText(fmt(v))
    requires forall k :: 0 <= k < |points| ==> Consistent(points[k])
    ensures var ts := VertexTexts(fmt, points);
      forall k :: 0 <= k < |ts| ==> VertexText(ts[k]) && ',' !in ts[k] && '-' <= ts[k][|ts[k]| - 1] <= '9'
  {
    var ts := VertexTexts(fmt, points);
    forall k | 0 <= k < |ts|
      ensures VertexText(ts[k]) && ',' !in ts[k] && '-' <= ts[k][|ts[k]| - 1] <= '9'
    {
      OneVertexText(fmt, points[k]);
    }
  }

  /** The vertex text of one point without M is a vertex text without commas, ending in a digit or sign. */
  lemma OneVertexText(fmt: int -> string, p: Point)
    requires forall v :: NumberText(fmt(v))
    requires Consistent(p)
    ensures var t := GetCoordinateWkt(fmt, p.x, p.y, p.z, p.m, p.hasZ, p.hasM);
      VertexText(t) && ',' !in t && '-' <= t[|t| - 1] <= '9'
  {
    var t := GetCoordinateWkt(fmt, p.x, p.y, p.z, p.m, p.hasZ, p.hasM);
    VertexTextChars(fmt, p);
    VertexTextEnds(fmt, p);
    assert ',' !in VertexChars;
    forall ch | ch in t
      ensures ch in TextChars
    {
    }
  }

  /**
   * The text of a polyline without M: "LINESTRING", " Z" when it has Z, then
   * the vertex texts joined by ", " in parentheses.
   */
  lemma LineTextShape(fmt: int -> string, l: LineString)
    requires forall v :: NumberText(fmt(v))
    requires !l.hasM && l.points != []
    requires forall k :: 0 <= k < |l.points| ==> Consistent(l.points[k])
    ensures var j := Join(VertexTexts(fmt, l.points), ", ");
      && VertexText(j)
      && LineToString(fmt, l) == Prefix("LINESTRING", l.hasZ) + " (" + j + ")"
  {
    var j := Join(VertexTexts(fmt, l.points), ", ");
    KeywordsAreKeywords();
    PrefixShape("LINESTRING", l.hasZ);
    VertexListJoin(fmt, l.points);
    VertexTextsAreVertexTexts(fmt, l.points);
    JoinVertexText(VertexTexts(fmt, l.points));
    TrimEndDrops(j, ", ", {' ', ','});
  }

  /** The texts between the commas of a join with ", ": the first as it is, every other after its space. */
  function Padded(ts: seq<string>): (r: seq<string>)
    requires |ts| >= 1
    ensures |r| == |ts| && r[0] == ts[0]
    ensures forall k :: 1 <= k < |ts| ==> r[k] == " " + ts[k]
  {
    seq(|ts|, k requires 0 <= k < |ts| => if k == 0 then ts[0] else " " + ts[k])
  }

  /** Prefixing the first text prefixes the join. */
  lemma JoinFirstPrefixed(p: string, a: string, us: seq<string>, sep: string)
    ensures Join([p + a] + us, sep) == p + Join([a] + us, sep)
  {
    if us != [] {
      JoinCons(p + a, us, sep);
      JoinCons(a, us, sep);
    }
  }

  /** Joining with ", " is joining the padded texts with ",". */
  lemma {:induction false} JoinSpaced(ts: seq<string>)
    requires |ts| >= 1
    ensures Join(ts, ", ") == Join(Padded(ts), ",")
    decreases |ts|
  {
    if |ts| == 1 {
      assert Padded(ts) == [ts[0]];
    } else {
      var tail := ts[1..];
      JoinSpaced(tail);
      var pt := Padded(tail);
      assert Padded(ts)[1..] == [" " + tail[0]] + pt[1..];
      assert pt == [tail[0]] + pt[1..];
      JoinFirstPrefixed(" ", tail[0], pt[1..], ",");
      JoinCons(ts[0], Padded(ts)[1..], ",");
      assert Padded(ts) == [ts[0]] + Padded(ts)[1..];
      assert Join(ts, ", ") == ts[0] + ", " + Join(tail, ", ");
    }
  }

  /** Splitting a join with ", " at commas gives back the padded texts, when no text holds a comma. */
  lemma SplitVertexList(ts: seq<string>)
    requires |ts| >= 1
    requires forall k :: 0 <= k < |ts| ==> |ts[k]| > 0 && ',' !in ts[k]
    ensures Split(Join(ts, ", "), ',') == Padded(ts)
  {
    JoinSpaced(ts);
    var pt := Padded(ts);
    forall k | 0 <= k < |pt|
      ensures |pt[k]| > 0 && ',' !in pt[k]
    {
      if k > 0 {
        assert pt[k] == [' '] + ts[k];
      }
    }
    SplitJoin(pt, ',');
  }

  /** A leading separator is skipped by the split. */
  lemma SplitLeadingSeparator(t: string, sep: char)
    ensures Split([sep] + t, sep) == Split(t, sep)
  {
    assert ([sep] + t)[1..] == t;
  }

  /** A point the decimal constructor builds from its own values. */
  predicate FromValues(cs: CoordinatesSystem, p: Point)
  {
    PointFromValues(cs, p.x.value, p.y.value, if p.z.Some? then Some(p.z.value.value) else None, None) == Ok(p)
  }

  /** The ordinate tokens of the vertex text of such a point are read back as the point. */
  lemma VertexTokensRead(cs: CoordinatesSystem, fmt: int -> string, parse: string -> Option<int>, p: Point)
    requires DecimalFormat(fmt, parse)
    requires FromValues(cs, p)
    ensures PointFromTokens(cs, parse, Split(GetCoordinateWkt(fmt, p.x, p.y, p.z, p.m, p.hasZ, p.hasM), ' '), p.hasZ, false) == Ok(p)
  {
    assert forall v :: NumberText(fmt(v));
    var z := if p.z.Some? then Some(p.z.value.value) else None;
    CoordinateWktTokens(fmt, p.x, p.y, p.z, p.m, p.hasZ, p.hasM);
    TokensParse(fmt, parse, p.x.value, p.y.value, z, p, Texts(fmt, VertexValues(p.x, p.y, p.z, p.m, p.hasZ, p.hasM)));
  }

  /** Texts each read as the corresponding point are read as the list of those points. */
  lemma PointsFromTextsOf(cs: CoordinatesSystem, parse: string -> Option<int>, texts: seq<string>,
                          hasZ: bool, points: seq<Point>)
    requires |texts| == |points|
    requires forall k :: 0 <= k < |texts| ==> PointFromTokens(cs, parse, Split(texts[k], ' '), hasZ, false) == Ok(points[k])
    ensures PointsFromTexts(cs, parse, texts, hasZ, false) == Ok(points)
  {
    var read := VertexReader(cs, parse, hasZ, false);
    forall k | 0 <= k < |texts|
      ensures read(texts[k]) == Ok(points[k])
    {
    }
    ReadAllOf(read, texts, points);
  }

  /** The vertex texts are read in order, each giving the point at its place. */
  lemma PointsFromTextsRead(cs: CoordinatesSystem, parse: string -> Option<int>, texts: seq<string>,
                            hasZ: bool, hasM: bool, points: seq<Point>)
    requires PointsFromTexts(cs, parse, texts, hasZ, hasM) == Ok(points)
    ensures |points| == |texts|
    ensures forall k :: 0 <= k < |texts| ==> PointFromTokens(cs, parse, Split(texts[k], ' '), hasZ, hasM) == Ok(points[k])
  {
    var read := VertexReader(cs, parse, hasZ, hasM);
    ReadAllRead(read, texts, points);
    forall k | 0 <= k < |texts|
      ensures PointFromTokens(cs, parse, Split(texts[k], ' '), hasZ, hasM) == Ok(points[k])
    {
      assert read(texts[k]) == Ok(points[k]);
    }
  }

  /** Texts each read as the corresponding item are read as the list of those items. */
  lemma {:induction false} ReadAllOf<T>(read: string -> Result<T>, texts: seq<string>, items: seq<T>)
    requires |texts| == |items|
    requires forall k :: 0 <= k < |texts| ==> read(texts[k]) == Ok(items[k])
    ensures ReadAll(read, texts) == Ok(items)
    decreases |texts|
  {
    if texts != [] {
      ReadAllOf(read, texts[1..], items[1..]);
      assert [items[0]] + items[1..] == items;
    }
  }

  /** A successful reading gives, at each place, what that text reads as. */
  lemma {:induction false} ReadAllRead<T>(read: string -> Result<T>, texts: seq<string>, items: seq<T>)
    requires ReadAll(read, texts) == Ok(items)
    ensures |items| == |texts|
    ensures forall k :: 0 <= k < |texts| ==> read(texts[k]) == Ok(items[k])
    decreases |texts|
  {
    if texts != [] {
      ReadAllRead(read, texts[1..], items[1..]);
      forall k | 1 <= k < |texts|
        ensures read(texts[k]) == Ok(items[k])
      {
        assert texts[k] == texts[1..][k - 1];
      }
    }
  }

  /** The padded vertex texts of points built from their values, all with the same Z flag, are read as those points. */
  lemma PaddedTextsRead(cs: CoordinatesSystem, fmt: int -> string, parse: string -> Option<int>, points: seq<Point>, hasZ: bool)
    requires DecimalFormat(fmt, parse)
    requires |points| >= 1
    requires forall k :: 0 <= k < |points| ==> FromValues(cs, points[k]) && points[k].hasZ == hasZ
    ensures PointsFromTexts(cs, parse, Padded(VertexTexts(fmt, points)), hasZ, false) == Ok(points)
  {
    var ts := VertexTexts(fmt, points);
    var pt := Padded(ts);
    forall k | 0 <= k < |pt|
      ensures PointFromTokens(cs, parse, Split(pt[k], ' '), hasZ, false) == Ok(points[k])
    {
      VertexTokensRead(cs, fmt, parse, points[k]);
      if k > 0 {
        assert pt[k] == [' '] + ts[k];
        SplitLeadingSeparator(ts[k], ' ');
      }
    }
    PointsFromTextsOf(cs, parse, pt, hasZ, points);
  }

  /** The string constructor on a text whose flags, vertex texts and points are known. */
  lemma LineFromWktOf(cs: CoordinatesSystem, parse: string -> Option<int>, wkt: string, hasZ: bool,
                      points: seq<Point>, extents: Extents, bytes: seq<byte>)
    requires 'M' !in ToUpper(wkt) && ('Z' in ToUpper(wkt) <==> hasZ)
    requires PointsFromTexts(cs, parse, Split(CoordinatesText("LINESTRING", wkt), ','), hasZ, false) == Ok(points)
    requires ComputeExtents(points, hasZ, false) == Ok(extents)
    requires LinePayload(cs, points, hasZ, false) == Ok(bytes)
    ensures LineFromWkt(cs, parse, wkt) == Ok(LineString(points, hasZ, false, extents, bytes))
  {
  }

  /**
   * The text of a polyline without M whose points are without M: no M, a Z
   * exactly when the polyline has Z, and an ordinates part that splits at
   * commas into the padded vertex texts.
   */
  lemma LineTextRead(fmt: int -> string, l: LineString)
    requires forall v :: NumberText(fmt(v))
    requires !l.hasM && l.points != []
    requires forall k :: 0 <= k < |l.points| ==> Consistent(l.points[k])
    ensures var text := LineToString(fmt, l);
      && 'M' !in ToUpper(text) && ('Z' in ToUpper(text) <==> l.hasZ)
      && Split(CoordinatesText("LINESTRING", text), ',') == Padded(VertexTexts(fmt, l.points))
  {
    var ts := VertexTexts(fmt, l.points);
    LineTextShape(fmt, l);
    KeywordsAreKeywords();
    FramedCoordinatesText("LINESTRING", l.hasZ, Join(ts, ", "));
    VertexTextsAreVertexTexts(fmt, l.points);
    SplitVertexList(ts);
  }

  /** Points the decimal constructor produces are without M, their flags matching their ordinates. */
  lemma FromValuesConsistent(cs: CoordinatesSystem, points: seq<Point>)
    requires forall k :: 0 <= k < |points| ==> FromValues(cs, points[k])
    ensures forall k :: 0 <= k < |points| ==> Consistent(points[k])
  {
    forall k | 0 <= k < |points|
      ensures Consistent(points[k])
    {
      assert FromValues(cs, points[k]);
    }
  }

  /**
   * A polyline built from points that the decimal constructor produces, all
   * with the flags of the first, is rebuilt identically from its own
   * well-known text, whenever the number format is read back by the parser.
   */
  lemma LineWktRoundTrip(cs: CoordinatesSystem, fmt: int -> string, parse: string -> Option<int>,
                         points: seq<Point>, l: LineString)
    requires DecimalFormat(fmt, parse)
    requires LineFromPoints(cs, points) == Ok(l)
    requires forall k :: 0 <= k < |points| ==> FromValues(cs, points[k]) && points[k].hasZ == points[0].hasZ
    ensures LineFromWkt(cs, parse, LineToString(fmt, l)) == Ok(l)
  {
    assert forall v :: NumberText(fmt(v));
    FromValuesConsistent(cs, points);
    LineTextRead(fmt, l);
    PaddedTextsRead(cs, fmt, parse, points, l.hasZ);
    LineFromWktOf(cs, parse, LineToString(fmt, l), l.hasZ, points, l.extents, l.bytes);
  }
}
