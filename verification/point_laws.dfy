/**
 * What the point constructors promise together: a point built from values
 * is read back identically from its payload, from its runs and from its
 * well-known text.
 */
module PointLaws {
  import opened Errors
  import opened CoordinatesSystems
  import opened CoordinatesSystemHelper
  import opened CoordinatesSystemHelperLaws
  import opened Coordinates
  import opened GeometryHelper
  import opened DotNetText
  import opened Points
  import opened WktLaws

  /**
   * Systems in which the body of any point is shorter than one level-1 count
   * unit and than a byte, and the product of the radii fits a C# `long`, so
   * that the length run of a point body is one byte.
   */
  predicate PointBodiesFit(cs: CoordinatesSystem)
  {
    && |cs.byteCoeff| >= 2
    && 3 * |cs.byteCoeff| <= (cs.byteCoeff[0] as int) * (cs.byteCoeff[1] as int)
    && 3 * |cs.byteCoeff| <= 256
    && LongFits(cs)
  }

  /** The default system is regular and its point bodies fit: nine radii whose product, 2^55, fits a `long`. */
  lemma DefaultsFit(cs: CoordinatesSystem)
    requires cs.byteCoeff == DefaultByteCoeff && cs.restartValue == DefaultRestartValue
    ensures Regular(cs) && PointBodiesFit(cs)
  {
    var c := cs.byteCoeff;
    DefaultsAreRegular(cs);
    assert Scale(c, 1) == 64;
    assert Scale(c, 2) == 8192;
    assert Scale(c, 3) == 1048576;
    assert Scale(c, 4) == 134217728;
    assert Scale(c, 5) == 17179869184;
    assert Scale(c, 6) == 2199023255552;
    assert Scale(c, 7) == 281474976710656;
    assert Scale(c, 8) == 36028797018963968;
    PrefixProduct(c, 8);
    assert c[..9] == c;
  }

  /** The values of a point whose ordinates a regular system encodes losslessly. */
  predicate Encodable(cs: CoordinatesSystem, x: int, y: int, z: Option<int>)
  {
    && InRange(cs, x, X)
    && InRange(cs, y, Y)
    && (z.Some? ==> InRange(cs, z.value, Z))
  }

  /** The runs of the coordinates of encodable values are complete and decode to the same coordinates. */
  lemma CoordinatesOf(cs: CoordinatesSystem, x: int, y: int, z: Option<int>)
    returns (cx: Coordinate, cy: Coordinate, cz: Option<Coordinate>)
    requires Regular(cs) && Encodable(cs, x, y, z)
    ensures CoordinateFromValue(cs, x, X) == Ok(cx) && CoordinateFromBytes(cs, cx.bytes, X) == Ok(cx)
    ensures CoordinateFromValue(cs, y, Y) == Ok(cy) && CoordinateFromBytes(cs, cy.bytes, Y) == Ok(cy)
    ensures OptionalFromValue(cs, z, Z) == Ok(cz)
    ensures cz.Some? ==> CoordinateFromBytes(cs, cz.value.bytes, Z) == Ok(cz.value)
    ensures Terminated(cx.bytes) && |cx.bytes| < |cs.byteCoeff|
    ensures Terminated(cy.bytes) && |cy.bytes| < |cs.byteCoeff|
    ensures cz.Some? ==> Terminated(cz.value.bytes) && |cz.value.bytes| < |cs.byteCoeff|
  {
    CoordinateRoundTrip(cs, x, X);
    CoordinateRoundTrip(cs, y, Y);
    cx := CoordinateFromValue(cs, x, X).value;
    cy := CoordinateFromValue(cs, y, Y).value;
    if z.Some? {
      CoordinateRoundTrip(cs, z.value, Z);
      cz := Some(CoordinateFromValue(cs, z.value, Z).value);
    } else {
      cz := None;
    }
  }

  /** The body of a point is its runs one after the other, and shorter than three maximal runs. */
  lemma BodyOfRuns(cs: CoordinatesSystem, cx: Coordinate, cy: Coordinate, cz: Option<Coordinate>)
    requires |cx.bytes| < |cs.byteCoeff| && |cy.bytes| < |cs.byteCoeff|
    requires cz.Some? ==> |cz.value.bytes| < |cs.byteCoeff|
    ensures |Flatten(PointRuns(cx, cy, cz, None))| < 3 * |cs.byteCoeff|
  {
    var runs := PointRuns(cx, cy, cz, None);
    if cz.Some? {
      assert runs == [cx.bytes] + ([cy.bytes] + [cz.value.bytes]);
      FlattenCons(cz.value.bytes, []);
      FlattenCons(cy.bytes, [cz.value.bytes]);
      FlattenCons(cx.bytes, [cy.bytes] + [cz.value.bytes]);
    } else {
      assert runs == [cx.bytes] + [cy.bytes];
      FlattenCons(cy.bytes, []);
      FlattenCons(cx.bytes, [cy.bytes]);
    }
  }

  /**
   * The payload of complete runs in a system where point bodies fit: the
   * header is split off intact, carries the Z flag and no M, and the body
   * splits back into the runs.
   */
  lemma PayloadLayout(cs: CoordinatesSystem, cx: Coordinate, cy: Coordinate, cz: Option<Coordinate>)
    requires Regular(cs) && PointBodiesFit(cs)
    requires Terminated(cx.bytes) && |cx.bytes| < |cs.byteCoeff|
    requires Terminated(cy.bytes) && |cy.bytes| < |cs.byteCoeff|
    requires cz.Some? ==> Terminated(cz.value.bytes) && |cz.value.bytes| < |cs.byteCoeff|
    ensures PointPayload(cs, cx, cy, cz, None).Ok?
    ensures var bytes := PointPayload(cs, cx, cy, cz, None).value;
      && ExtractHeader(bytes) == Ok(bytes[..NbReservedBytes])
      && GetGeometryDimension(bytes[..NbReservedBytes]) == Ok((cz.Some?, false))
      && GetEncodedValues(RemoveHeader(bytes)) == PointRuns(cx, cy, cz, None)
  {
    var runs := PointRuns(cx, cy, cz, None);
    BodyOfRuns(cs, cx, cy, cz);
    SmallCountIsOneByte(cs, |Flatten(runs)|);
    forall k | 0 <= k < |runs|
      ensures Terminated(runs[k])
    {
      if k == 2 {
        assert runs[k] == cz.value.bytes;
      }
    }
    SplitOfJoin(runs);
  }

  /** The runs of decodable coordinates are read back, by the body reader, as those coordinates. */
  lemma BodyReadsBack(cs: CoordinatesSystem, cx: Coordinate, cy: Coordinate, cz: Option<Coordinate>, bytes: seq<byte>)
    requires CoordinateFromBytes(cs, cx.bytes, X) == Ok(cx)
    requires CoordinateFromBytes(cs, cy.bytes, Y) == Ok(cy)
    requires cz.Some? ==> CoordinateFromBytes(cs, cz.value.bytes, Z) == Ok(cz.value)
    ensures PointFromBody(cs, bytes, PointRuns(cx, cy, cz, None), cz.Some?, false)
         == Ok(Point(cx, cy, cz, None, cz.Some?, false, bytes))
  {
    var runs := PointRuns(cx, cy, cz, None);
    assert OptionalFromBytes(cs, if cz.Some? then Some(runs[2]) else None, Z) == Ok(cz);
  }

  /**
   * A point built from encodable values is read back from its payload as the
   * same point, by the constructor as written and by the checked reader, and
   * the byte-array constructor given its runs builds it too.
   */
  lemma PointBytesRoundTrip(cs: CoordinatesSystem, x: int, y: int, z: Option<int>)
    requires Regular(cs) && PointBodiesFit(cs) && Encodable(cs, x, y, z)
    ensures PointFromValues(cs, x, y, z, None).Ok?
    ensures var p := PointFromValues(cs, x, y, z, None).value;
      && PointFromBytes(cs, p.bytes) == Ok(p)
      && PointFromBytesChecked(cs, p.bytes) == Ok(p)
      && PointFromRuns(cs, p.x.bytes, p.y.bytes, if p.hasZ then Some(p.z.value.bytes) else None, None) == Ok(p)
  {
    var cx, cy, cz := CoordinatesOf(cs, x, y, z);
    PayloadLayout(cs, cx, cy, cz);
    var bytes := PointPayload(cs, cx, cy, cz, None).value;
    assert PointFromValues(cs, x, y, z, None) == Ok(Point(cx, cy, cz, None, cz.Some?, false, bytes));
    BodyReadsBack(cs, cx, cy, cz, bytes);
  }

  /** The text of a vertex is made of digits, points, minus signs and spaces. */
  lemma VertexTextChars(fmt: int -> string, p: Point)
    requires forall v :: NumberText(fmt(v))
    requires Consistent(p)
    ensures forall ch :: ch in GetCoordinateWkt(fmt, p.x, p.y, p.z, p.m, p.hasZ, p.hasM) ==> ch in VertexChars
  {
    var fx, fy := fmt(p.x.value), fmt(p.y.value);
    var last := if p.hasZ then fmt(p.z.value.value) else fy;
    assert NumberText(fx) && NumberText(fy) && NumberText(last);
    var core := GetCoordinateWkt(fmt, p.x, p.y, p.z, p.m, p.hasZ, p.hasM);
    assert core == fx + " " + fy + (if p.hasZ then " " + last else "");
    forall ch | ch in core
      ensures ch in VertexChars
    {
      if ch in fx {
        var i :| 0 <= i < |fx| && fx[i] == ch;
        assert fx[i] in "0123456789.-";
      } else if ch in fy {
        var i :| 0 <= i < |fy| && fy[i] == ch;
        assert fy[i] in "0123456789.-";
      } else if ch in last {
        var i :| 0 <= i < |last| && last[i] == ch;
        assert last[i] in "0123456789.-";
      }
    }
  }

  /** The text of a vertex starts and ends with a number character, neither of which is white space. */
  lemma VertexTextEnds(fmt: int -> string, p: Point)
    requires forall v :: NumberText(fmt(v))
    requires Consistent(p)
    ensures var core := GetCoordinateWkt(fmt, p.x, p.y, p.z, p.m, p.hasZ, p.hasM);
      && core != [] && core[0] != ' ' && core[|core| - 1] != ' '
      && core[0] !in WhiteSpace && core[|core| - 1] !in WhiteSpace
      && '-' <= core[|core| - 1] <= '9'
  {
    var fx, fy := fmt(p.x.value), fmt(p.y.value);
    var last := if p.hasZ then fmt(p.z.value.value) else fy;
    var middle := if p.hasZ then " " + fy + " " else " ";
    VertexTextParts(fmt, p);
    NumberTextEnds(fx);
    NumberTextEnds(last);
    ConcatEnds(fx, middle, last);
    WhiteSpaceOutsideNumberRange(fx[0]);
    WhiteSpaceOutsideNumberRange(last[|last| - 1]);
  }

  /** The vertex text of a point without M: x, then y and z when present, between single spaces. */
  lemma VertexTextParts(fmt: int -> string, p: Point)
    requires Consistent(p)
    ensures GetCoordinateWkt(fmt, p.x, p.y, p.z, p.m, p.hasZ, p.hasM)
         == fmt(p.x.value) + (if p.hasZ then " " + fmt(p.y.value) + " " else " ")
          + (if p.hasZ then fmt(p.z.value.value) else fmt(p.y.value))
  {
  }

  /** The first and last characters of a number text lie between '-' and '9'. */
  lemma NumberTextEnds(t: string)
    requires NumberText(t)
    ensures '-' <= t[0] <= '9' && '-' <= t[|t| - 1] <= '9'
  {
    assert t[0] in "0123456789.-";
    assert t[|t| - 1] in "0123456789.-";
  }

  /** A concatenation starts with its first part and ends with its last, when both are non-empty. */
  lemma ConcatEnds(a: string, middle: string, b: string)
    requires a != [] && b != []
    ensures var s := a + middle + b;
      s != [] && s[0] == a[0] && s[|s| - 1] == b[|b| - 1]
  {
  }

  /** The text of a point without M is its prefix, then the vertex text in parentheses. */
  lemma PointTextShape(fmt: int -> string, p: Point)
    requires Consistent(p)
    ensures PointToString(fmt, p) == Prefix("POINT", p.hasZ) + " (" + GetCoordinateWkt(fmt, p.x, p.y, p.z, p.m, p.hasZ, p.hasM) + ")"
  {
    KeywordsAreKeywords();
    PrefixShape("POINT", p.hasZ);
  }

  /**
   * Reading the ordinates text back from the text of a point without M: the
   * upper-cased text is unchanged, the flags letters are found exactly when
   * the point has them, and the keywords and parentheses removed and the
   * text trimmed leave the vertex text.
   */
  lemma PointTextCoordinates(fmt: int -> string, p: Point)
    requires forall v :: NumberText(fmt(v))
    requires Consistent(p)
    ensures var text := PointToString(fmt, p);
      && ToUpper(text) == text
      && ('Z' in text <==> p.hasZ)
      && 'M' !in text
      && CoordinatesText("POINT", text) == GetCoordinateWkt(fmt, p.x, p.y, p.z, p.m, p.hasZ, p.hasM)
  {
    var core := GetCoordinateWkt(fmt, p.x, p.y, p.z, p.m, p.hasZ, p.hasM);
    PointTextShape(fmt, p);
    VertexTextChars(fmt, p);
    VertexTextEnds(fmt, p);
    KeywordsAreKeywords();
    FramedCoordinatesText("POINT", p.hasZ, core);
  }

  /** The ordinate tokens read from the text of a point without M are the texts of its ordinates. */
  lemma PointTextTokens(fmt: int -> string, p: Point)
    requires forall v :: NumberText(fmt(v))
    requires Consistent(p)
    ensures var text := PointToString(fmt, p);
      && 'M' !in ToUpper(text) && ('Z' in ToUpper(text) <==> p.hasZ)
      && Split(CoordinatesText("POINT", text), ' ') == Texts(fmt, VertexValues(p.x, p.y, p.z, p.m, p.hasZ, p.hasM))
  {
    PointTextCoordinates(fmt, p);
    CoordinateWktTokens(fmt, p.x, p.y, p.z, p.m, p.hasZ, p.hasM);
  }

  /**
   * The string constructor on a text without M whose Z flag and ordinate
   * tokens are given: it builds the point of those values.
   */
  lemma WktReadsValues(cs: CoordinatesSystem, parse: string -> Option<int>, wkt: string, x: int, y: int, z: Option<int>)
    requires 'M' !in ToUpper(wkt) && ('Z' in ToUpper(wkt) <==> z.Some?)
    requires var tokens := Split(CoordinatesText("POINT", wkt), ' ');
      && |tokens| >= 2 && parse(tokens[0]) == Some(x) && parse(tokens[1]) == Some(y)
      && (z.Some? ==> |tokens| >= 3 && parse(tokens[2]) == Some(z.value))
    ensures PointFromWkt(cs, parse, wkt) == PointFromValues(cs, x, y, z, None)
  {
  }

  /** The ordinate tokens of the text of a point built from values are read back as those values. */
  lemma PointTextValues(fmt: int -> string, parse: string -> Option<int>, x: int, y: int, z: Option<int>, p: Point)
    requires DecimalFormat(fmt, parse)
    requires Consistent(p) && (p.hasZ <==> z.Some?) && p.x.value == x && p.y.value == y
    requires z.Some? ==> p.z.value.value == z.value
    ensures var text := PointToString(fmt, p);
      var tokens := Split(CoordinatesText("POINT", text), ' ');
      && 'M' !in ToUpper(text) && ('Z' in ToUpper(text) <==> z.Some?)
      && |tokens| >= 2 && parse(tokens[0]) == Some(x) && parse(tokens[1]) == Some(y)
      && (z.Some? ==> |tokens| >= 3 && parse(tokens[2]) == Some(z.value))
  {
    assert forall v :: NumberText(fmt(v));
    PointTextTokens(fmt, p);
    TokensParse(fmt, parse, x, y, z, p, Split(CoordinatesText("POINT", PointToString(fmt, p)), ' '));
  }

  /** The texts of a point's ordinates are parsed back as the values the point was built from. */
  lemma TokensParse(fmt: int -> string, parse: string -> Option<int>, x: int, y: int, z: Option<int>, p: Point, tokens: seq<string>)
    requires DecimalFormat(fmt, parse)
    requires Consistent(p) && (p.hasZ <==> z.Some?) && p.x.value == x && p.y.value == y
    requires z.Some? ==> p.z.value.value == z.value
    requires tokens == Texts(fmt, VertexValues(p.x, p.y, p.z, p.m, p.hasZ, p.hasM))
    ensures |tokens| >= 2 && parse(tokens[0]) == Some(x) && parse(tokens[1]) == Some(y)
    ensures z.Some? ==> |tokens| >= 3 && parse(tokens[2]) == Some(z.value)
  {
    assert tokens[0] == fmt(x) && tokens[1] == fmt(y);
    assert parse(fmt(x)) == Some(x) && parse(fmt(y)) == Some(y);
    if p.hasZ {
      assert tokens[2] == fmt(z.value);
      assert parse(fmt(z.value)) == Some(z.value);
    }
  }

  /**
   * A point built from values is read back identically from its own
   * well-known text, whenever the number format is read back by the parser.
   */
  lemma PointWktRoundTrip(cs: CoordinatesSystem, fmt: int -> string, parse: string -> Option<int>,
                          x: int, y: int, z: Option<int>, p: Point)
    requires DecimalFormat(fmt, parse)
    requires PointFromValues(cs, x, y, z, None) == Ok(p)
    ensures PointFromWkt(cs, parse, PointToString(fmt, p)) == Ok(p)
  {
    PointTextValues(fmt, parse, x, y, z, p);
    WktReadsValues(cs, parse, PointToString(fmt, p), x, y, z);
  }
}
