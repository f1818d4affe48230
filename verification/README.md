# NetStGeometry ST_Geometry codec — a Dafny model

NetStGeometry reads and writes the binary payload that Esri's `ST_Geometry`
type stores in Oracle. Each ordinate is stored as a variable-length run of
bytes. The first byte carries the lowest digit and the sign flag. Every byte
except the last has the restart marker added, so its top bit is set. The run
is measured from the origin of its axis (MinX, MinY, MinZ) of a
coordinate system. A payload is an 8-byte header followed by these runs:

- the header holds the body length as a run, a constant byte, the Z/M
  dimension byte and two zero bytes;
- a polyline stores its first vertex in full and each later vertex as the
  difference from the previous one;
- a polyline stores all X/Y runs first and the Z runs after them.

The project models:

- `CoordinatesSystems` — the coordinate system: constructor defaults, byte
  factors and the origin lookup.
- `CoordinatesSystemHelper` — the run codec: the value and count encoders,
  the decoder and the sign flag.
- `CoordinateDifferences` — the difference runs used by polylines, and the
  law that rebuilding undoes taking the difference.
- `GeometryHelper` — splitting a body into runs, the header, and the vertex
  text of a well-known text (WKT).
- `Coordinates` — a coordinate built from a value or from its run, and its
  text.
- `Points` — a point built from values, from runs, from a payload and from
  WKT, and written back to a payload and to WKT.
- `LineStrings` — a polyline built from points, from a payload and from
  WKT, and written back to a payload and to WKT.
- `DotNetText` — the .NET string operations that the WKT code relies on
  (`ToUpper`, `Replace(x, "")`, `Trim`, `TrimEnd`, `Split` with
  `RemoveEmptyEntries`), over ASCII.
- `Errors` — .NET exceptions as error values of a `Result`.

The laws modules prove what these operations promise together:

- `CoordinatesSystemHelperLaws` — the codec round trip, and when the
  count encoder's `long` threshold is exact and when it wraps.
- `PointLaws` — the point payload and WKT round trips.
- `LineStringLaws` — extents and the polyline payload round trip.
- `WktLaws`, `LineTextLaws` — reading the vertex text back out of a WKT, and
  the polyline WKT round trip.
- `DocumentedRuns` — the byte runs the source's comments give as examples,
  encoded and decoded by the default system, including the difference
  example of `GetBytesFromDifference`, whose comment has the wrong sign.

## Modelling choices

- Units: decimal quantities are integers counted in resolution units. This
  covers coordinates, axis origins and the tolerance. The resolution is
  therefore 1, and `ByteFactors[i] / Resolution` is `Scale(byteCoeff, i)`.
- The global `StParameters.CoordinatesSystem` becomes an explicit `cs`
  parameter of every operation that reads it.
- Exceptions: each exception the source throws becomes an `Err` naming the
  .NET exception type. This includes the index-out-of-range errors of
  arrays and lists.
- `long` arithmetic: the count encoder multiplies all radii into a C#
  `long`. The model wraps that product modulo 2^64 into the signed range
  (`WrapLong`). Its division truncates toward zero (`LongDivide`).
- Byte arithmetic: C# byte wrap-around is written out as `% 256`. This
  covers `byteValue += RestartValue`, `bytes[0] += ByteCoeff[1]` and
  `(byte)(b - RestartValue)`. A `(byte)` conversion of a decimal that does
  not fit becomes an `OverflowException`.
- Decimal text: formatting a value with `"0.####"` and
  `Convert.ToDecimal` are the parameters `fmt` and `parse`. The WKT round
  trips assume `DecimalFormat(fmt, parse)`: `fmt` writes digits, `.` and `-`
  only, and `parse` reads back what `fmt` wrote. `"0.####"` keeps at most
  four decimals, so a real formatter meets this only when the resolution is
  0.0001 or coarser. With a finer resolution, values are rounded in the text
  and the WKT round trips do not hold.

## Model

| member | source | states |
|---|---|---|
| CoordinatesSystems.NewCoordinatesSystem | NetStGeometry/Tools/StCoordinatesSystem.cs:32-69 | The constructor succeeds unless the byte coefficients are given and empty. A given maximum is kept and a missing one becomes Decimal.MaxValue. A given tolerance, coefficient list and marker are kept, and missing ones take their defaults. The origins, the SRID and the SRID name are kept. |
| CoordinatesSystems.ConstructedIsRegular | NetStGeometry/Tools/StCoordinatesSystem.cs:32-69 | A system built without coefficients or marker is regular, so the codec laws apply to it. Its X and Y origins are the given minima, and it has a Z origin exactly when a minimum Z was given. |
| CoordinatesSystems.ByteFactors | NetStGeometry/Tools/StCoordinatesSystem.cs:63-68 | Empty coefficients fail with an index error. Otherwise factor 0 is one resolution unit and each later factor is the previous one times that level's coefficient. |
| CoordinatesSystems.ScaleIsProduct | NetStGeometry/Tools/StCoordinatesSystem.cs:63-68 | The weight of level i is the product of coefficients 1..i. |
| CoordinatesSystems.ScaleStrictlyIncreasing | NetStGeometry/Tools/StCoordinatesSystem.cs:63-68 | With coefficients of at least 2, higher levels weigh strictly more. |
| CoordinatesSystems.DefaultFactors | NetStGeometry/Tools/StCoordinatesSystem.cs:59-68 | The default coefficients give the factors 1, 64, then a factor of 128 per level. |
| CoordinatesSystems.DefaultsAreRegular | NetStGeometry/Tools/StCoordinatesSystem.cs:59-61 | Every system with the default coefficients and marker meets the regularity the codec laws need. |
| CoordinatesSystems.GetMin | NetStGeometry/Tools/StCoordinatesSystem.cs:157-172 | X and Y return their origins. Z returns its origin only when the system was built with one. Z without an origin, and M, fail with ArgumentException. |
| CoordinatesSystemHelper.WrapLong | NetStGeometry/Tools/StCoordinatesSystemHelper.cs:21-25 | A product kept in a C# `long`: the result is in the `long` range and differs from the exact value by a multiple of 2^64. A value already in range is unchanged. |
| CoordinatesSystemHelper.LongDivide | NetStGeometry/Tools/StCoordinatesSystemHelper.cs:27-31 | C# `long` division truncates toward zero: the quotient times the divisor is within one divisor of the dividend, on the dividend's side of zero. |
| CoordinatesSystemHelper.CountTopLevel | NetStGeometry/Tools/StCoordinatesSystemHelper.cs:20-31 | The scan never rises above its start level. It stops at level 0, or as soon as the count reaches the running `long` threshold. A zero radius met on the way is a DivideByZeroException. |
| CoordinatesSystemHelperLaws.PrefixProduct | NetStGeometry/Tools/StCoordinatesSystemHelper.cs:21-31 | The product of the radii of levels 0..k is coeff[0] times the factor of level k. |
| CoordinatesSystemHelperLaws.LongProductExact | NetStGeometry/Tools/StCoordinatesSystemHelper.cs:21-25 | While the product of all radii fits a `long`, the product the loop accumulates is the exact one. |
| CoordinatesSystemHelperLaws.CountTopLevelExact | NetStGeometry/Tools/StCoordinatesSystemHelper.cs:27-31 | Started from the exact threshold with no zero radius, the scan succeeds. It picks the highest level whose threshold, coeff[0] times the level's factor, the count reaches, or level 0. |
| CoordinatesSystemHelperLaws.CountLevelOf | NetStGeometry/Tools/StCoordinatesSystemHelper.cs:17-31 | In a system whose radii product fits a `long`, the count's top level is the highest level whose threshold the count reaches. Every higher level's threshold exceeds the count. |
| CoordinatesSystemHelperLaws.WrappedProduct | NetStGeometry/Tools/StCoordinatesSystemHelper.cs:21-25 | The radii 1, 64 and nine times 128 multiply to 0 in a `long`, because 2^69 wraps. |
| CoordinatesSystemHelperLaws.WrappingIsRegular | NetStGeometry/Tools/StCoordinatesSystemHelper.cs:21-25 | That system is regular, but its radii product does not fit a `long`. |
| CoordinatesSystemHelperLaws.CountAtTopLevel | NetStGeometry/Tools/StCoordinatesSystemHelper.cs:17-60 | In a regular system, a count that reaches the wrapped threshold and stays below the top factor is written in \|coeff\| bytes. |
| CoordinatesSystemHelperLaws.WrappedCountThreshold | NetStGeometry/Tools/StCoordinatesSystemHelper.cs:17-60 | In the wrapping system, every count below 64 is written in 11 bytes instead of one. |
| CoordinatesSystemHelper.GetBytesFromCount | NetStGeometry/Tools/StCoordinatesSystemHelper.cs:17-60 | An encoded count has between 1 and \|coeff\| bytes. Every byte but the last carries the marker, and the digits weighted by level sum to the count, whatever level the `long` threshold picks. |
| CoordinatesSystemHelper.TopLevel | NetStGeometry/Tools/StCoordinatesSystemHelper.cs:76-81 | The top level chosen is the highest one whose factor the distance from the origin reaches. |
| CoordinatesSystemHelper.MarkedLevels | NetStGeometry/Tools/StCoordinatesSystemHelper.cs:91-104 | The lower levels each emit a marked byte, and their digits sum to the remainder. |
| CoordinatesSystemHelper.EncodeMagnitude | NetStGeometry/Tools/StCoordinatesSystemHelper.cs:83-104 | The run has top level + 1 bytes, all but the last marked, and its digits weighted by level sum to the magnitude. |
| CoordinatesSystemHelper.GetBytesFromValue | NetStGeometry/Tools/StCoordinatesSystemHelper.cs:62-110 | M fails with NotSupportedException and an axis without an origin with ArgumentException. A run has 1..\|coeff\| bytes. At or above the origin, all bytes but the last are marked and the digits sum to the distance from the origin. |
| CoordinatesSystemHelper.SetNegative | NetStGeometry/Tools/StCoordinatesSystemHelper.cs:208-228 | Flagging succeeds exactly on the byte ranges the source accepts: a single byte at most ByteCoeff[1], or a first byte within [marker, marker + ByteCoeff[1]]. Only the first byte changes: ByteCoeff[1] is added modulo 256. |
| CoordinatesSystemHelper.IsNegative | NetStGeometry/Tools/StCoordinatesSystemHelper.cs:177-206 | Reading the flag fails on an empty run. A one-byte run is negative iff its byte is at least ByteCoeff[1]; a longer run iff its first byte is at least ByteCoeff[1] + marker. It also returns the first digit with the flag and the marker taken off. |
| CoordinatesSystemHelper.GetValueFromBytes | NetStGeometry/Tools/StCoordinatesSystemHelper.cs:112-137 | M fails with NotSupportedException. Decoding succeeds iff the axis has an origin, there are at least two levels, and the run has 1 to \|coeff\| - 1 bytes; a longer run makes the loop read past the coefficients. |
| CoordinateDifferences.GetBytesFromDifference | NetStGeometry/Tools/StCoordinatesSystemHelper.cs:139-158 | M fails, and a run that does not decode passes its error on. In a regular system, when both runs decode and previous + (difference − origin) is in range, the result is a complete run, shorter than \|coeff\|, that decodes to that sum. |
| CoordinateDifferences.GetDifferenceFromBytes | NetStGeometry/Tools/StCoordinatesSystemHelper.cs:160-175 | M fails, and a run that does not decode passes its error on. In a regular system, when both runs decode and origin + (current − previous) is in range, the result is a complete run, shorter than \|coeff\|, that decodes to that value. |
| CoordinatesSystemHelperLaws.DecodeIs | NetStGeometry/Tools/StCoordinatesSystemHelper.cs:112-137 | The decoded value is the origin plus the weighted digits, or the origin minus them when the sign flag is set. |
| CoordinatesSystemHelperLaws.EncodeFacts | NetStGeometry/Tools/StCoordinatesSystemHelper.cs:62-137 | In a regular system, a value within capacity of the axis origin encodes. The run is shorter than \|coeff\|, ends in its only unmarked byte, and decodes to the value. |
| CoordinatesSystemHelperLaws.RoundTrip | NetStGeometry/Tools/StCoordinatesSystemHelper.cs:62-137 | Decoding the encoding of any in-range value gives the value back. |
| CoordinatesSystemHelperLaws.OriginEncodesAsZero | NetStGeometry/Tools/StCoordinatesSystem.cs:119-123 | The origin of an axis encodes as the single byte 0. |
| Points.OriginDecodes | NetStGeometry/Tools/StCoordinatesSystem.cs:119-123 | The single byte 0 decodes to the origin of X and of Y. |
| CoordinatesSystemHelperLaws.SingleLevel | NetStGeometry/Tools/StCoordinatesSystemHelper.cs:76-89 | A magnitude below 256 at level 0 is one unmarked byte holding it. |
| CoordinatesSystemHelperLaws.BelowOriginIsFlagged | NetStGeometry/Tools/StCoordinatesSystemHelper.cs:67-107 | The value a units below the origin encodes as the run for a units above it with the sign flag set. Both fail together when that run does not encode. |
| CoordinateDifferences.DeltaInverse | NetStGeometry/Tools/StCoordinatesSystemHelper.cs:139-175 | The stored difference of two in-range runs exists. Rebuilding from it and the previous run gives exactly the current run's canonical encoding, which decodes to the current value. |
| CoordinateDifferences.DeltaForward | NetStGeometry/Tools/StCoordinatesSystemHelper.cs:160-175 | The stored difference is a complete run, shorter than \|coeff\|, decoding to origin + (current − previous). |
| CoordinateDifferences.DeltaBack | NetStGeometry/Tools/StCoordinatesSystemHelper.cs:139-158 | Any run decoding to origin + (current − previous) rebuilds the current value's encoding from the previous run. |
| CoordinatesSystemHelperLaws.SmallCountIsOneByte | NetStGeometry/Tools/StCoordinatesSystemHelper.cs:17-60 | In a system whose radii product fits a `long`, a count below the level-1 factor and below 256 encodes as the single byte holding it. |
| GeometryHelper.FirstRunLength | NetStGeometry/Tools/StGeometryHelper.cs:25-38 | The first run ends at the first byte below 128, or at the end of the input. |
| GeometryHelper.GetEncodedValues | NetStGeometry/Tools/StGeometryHelper.cs:18-44 | The runs, concatenated, are exactly the input bytes. |
| GeometryHelper.RunsShape | NetStGeometry/Tools/StGeometryHelper.cs:18-44 | No run is empty. Within each run, every byte but the last is at least 128, and every run but the last ends below 128. |
| GeometryHelper.SplitOfJoin | NetStGeometry/Tools/StGeometryHelper.cs:18-44 | Splitting the concatenation of complete runs gives those runs back. |
| GeometryHelper.GenerateHeader | NetStGeometry/Tools/StGeometryHelper.cs:46-74 | The header is the count run zero-padded to 4 bytes, then 1, the dimension byte, 0, 0. It fails exactly when the count does not encode. |
| GeometryHelper.ExtractHeader | NetStGeometry/Tools/StGeometryHelper.cs:76-85 | Input shorter than 8 bytes is an index error. Otherwise the header is the first 8 bytes, and with the body it rebuilds the input. |
| GeometryHelper.RemoveHeader | NetStGeometry/Tools/StGeometryHelper.cs:87-96 | The body is everything after the first 8 bytes, and empty for shorter input. |
| GeometryHelper.GetGeometryDimension | NetStGeometry/Tools/StGeometryHelper.cs:98-121 | Header length other than 8 fails with ArgumentException, and a dimension byte above 3 with NotSupportedException. Otherwise (hasZ, hasM) is decoded from byte 5. |
| GeometryHelper.DimensionRoundTrip | NetStGeometry/Tools/StGeometryHelper.cs:62-121 | A header whose byte 5 was written for (hasZ, hasM) reads back as (hasZ, hasM). |
| GeometryHelper.HeaderRoundTrip | NetStGeometry/Tools/StGeometryHelper.cs:46-121 | A generated header is 8 bytes when the count fits in 4. Extracting and removing it from header + body give back header and body, and its dimension reads back. |
| GeometryHelper.Frame | NetStGeometry/Geometry/StPoint.cs:174-177 | Header + body fails exactly when the count does not encode. It is at least 8 bytes longer than the body, and with a short count its body and dimension read back. |
| GeometryHelper.FrameLayout | NetStGeometry/Tools/StGeometryHelper.cs:46-96 | With a count of at most 4 bytes, the header is the first 8 bytes of header + body, the rest is the body, and the dimension reads back. |
| GeometryHelper.VertexTextIsJoin | NetStGeometry/Tools/StGeometryHelper.cs:123-133 | The vertex text joins, with single spaces, the formatted X, Y, then Z and M when present. |
| GeometryHelper.CoordinateWktTokens | NetStGeometry/Tools/StGeometryHelper.cs:123-133 | Splitting the vertex text on spaces gives back exactly the formatted ordinates. |
| GeometryHelper.WktPrefix | NetStGeometry/Geometry/StPoint.cs:182-190 | The keyword, then " Z" and "M" as the flags say, with the space trimmed when there is neither. Its meaning without M is stated by `WktLaws.PrefixShape`. |
| GeometryHelper.GetCoordinateWkt | NetStGeometry/Tools/StGeometryHelper.cs:123-133 | X and Y, then Z and M when the flags say so, each preceded by a space. Its meaning is stated by `GeometryHelper.VertexTextIsJoin` and `GeometryHelper.CoordinateWktTokens`. |
| Coordinates.CoordinateFromBytes | NetStGeometry/Geometry/StCoordinate.cs:12-16 | A coordinate built from a run keeps the run, takes its decoded value, and fails exactly when decoding fails, with the same error. |
| Coordinates.CoordinateFromValue | NetStGeometry/Geometry/StCoordinate.cs:23-27 | A coordinate built from a value keeps the value, takes its encoding, and fails exactly when encoding fails. |
| Coordinates.CoordinateRoundTrip | NetStGeometry/Geometry/StCoordinate.cs:12-27 | For an in-range value, rebuilding the coordinate from its run gives the same coordinate. The run is complete and shorter than \|coeff\|. |
| Coordinates.CoordinateToString | NetStGeometry/Geometry/StCoordinate.cs:32-35 | The text of a coordinate is its value formatted with `"0.####"`, which is a parameter. How these texts make up a vertex text is stated by `GeometryHelper.VertexTextIsJoin`. |
| Points.PointPayload | NetStGeometry/Geometry/StPoint.cs:161-178 | The payload fails exactly when the body length does not encode. With a short count, its body is the concatenated runs and its header states Z and M as present. |
| Points.Assemble | NetStGeometry/Geometry/StPoint.cs:56-57 | A point built from coordinates flags Z and M by their presence and carries the payload of its runs. |
| Points.PointFromRuns | NetStGeometry/Geometry/StPoint.cs:41-58 | An M run makes the build fail. The point keeps each run, decodes each ordinate from it, has Z iff a Z run is given, and its payload frames the runs. |
| Points.PointFromValues | NetStGeometry/Geometry/StPoint.cs:65-82 | An M value makes the build fail. The point keeps each value, encodes each ordinate, has Z iff a Z value is given, and its payload frames the runs. |
| Points.PointFromBody | NetStGeometry/Geometry/StPoint.cs:24-38 | Fewer than 2, more than 4, or fewer runs than the dimension needs fail with ArgumentException. An M body fails. Otherwise X, Y and Z decode from runs 0, 1 and 2. |
| Points.PointFromBytes | NetStGeometry/Geometry/StPoint.cs:13-39 | As written: input shorter than 8 bytes is an index error, and a header error is passed on. Fewer than 2 or more than 4 body runs, or fewer than 3 with Z, is an ArgumentException. On success the point keeps the bytes, takes its Z flag from the header, never has M, and decodes X, Y and Z from body runs 0, 1 and 2. |
| Points.PointFromBytesChecked | NetStGeometry/Geometry/StPoint.cs:13-39 | Corrected: the same checks, with M counted in the runs needed, and a header that announces M always fails. On success the point's (hasZ, hasM) equals the header's dimension, and X, Y and Z decode from body runs 0, 1 and 2. |
| Points.DroppedMeasureFlag | NetStGeometry/Geometry/StPoint.cs:20-22 | A payload whose header says M is read by the as-written decoder as a point without M. The corrected decoder rejects it. |
| Points.ParseAt | NetStGeometry/Geometry/StPoint.cs:94-107 | A missing token is an index error, and an unparsable one a format error. Otherwise it returns the parsed value. |
| Points.PointFromTokens | NetStGeometry/Geometry/StPoint.cs:92-126 | M fails, and so do too few tokens for the dimension. On success X, Y and Z are the parsed tokens 0, 1 and 2. |
| Points.PointFromWkt | NetStGeometry/Geometry/StPoint.cs:84-127 | Text containing M fails. The point has Z iff the upper-cased text contains Z. Its ordinates are parsed from the space-separated tokens left once the keyword, letters and parentheses are stripped. |
| PointLaws.DefaultsFit | NetStGeometry/Tools/StCoordinatesSystem.cs:59-61 | The default system is regular and its point bodies fit: nine radii whose product, 2^55, fits a `long`. |
| PointLaws.PayloadLayout | NetStGeometry/Geometry/StPoint.cs:161-178 | A point payload's header reads back with the right dimension, and its body splits exactly into the X, Y and Z runs. |
| PointLaws.PointBytesRoundTrip | NetStGeometry/Geometry/StPoint.cs:13-82 | A point built from in-range values is rebuilt identically from its payload, by both decoders, and from its runs. |
| PointLaws.PointTextShape | NetStGeometry/Geometry/StPoint.cs:180-191 | The text is "POINT", " Z" when the point has Z, " (", the vertex text, ")". |
| PointLaws.PointTextCoordinates | NetStGeometry/Geometry/StPoint.cs:84-91 | The written text is upper-case and has Z iff the point has Z, and no M. Stripping it gives back exactly the vertex text. |
| PointLaws.PointTextTokens | NetStGeometry/Geometry/StPoint.cs:86-92 | Stripping and splitting the written text gives the formatted ordinates in order. |
| PointLaws.WktReadsValues | NetStGeometry/Geometry/StPoint.cs:84-127 | A text whose tokens parse to given values is read as the point the value constructor builds from them. |
| PointLaws.PointWktRoundTrip | NetStGeometry/Geometry/StPoint.cs:84-191 | A point built from values is read back identically from its own WKT. |
| Points.PointToString | NetStGeometry/Geometry/StPoint.cs:180-191 | The prefix, " (", the vertex text, ")". Its meaning is stated by `PointLaws.PointTextShape`, `PointLaws.PointTextCoordinates` and `PointLaws.PointTextTokens`. |
| WktLaws.PrefixShape | NetStGeometry/Geometry/StPoint.cs:182-190 | Without M, the trimmed prefix is the keyword followed by " Z" exactly when there is a Z. |
| WktLaws.FramedCoordinatesText | NetStGeometry/Geometry/StLineString.cs:69-76 | For keyword + optional " Z" + " (" + vertex text + ")": the text is upper-case, has Z iff announced, has no M. Stripping keyword, letters and parentheses and trimming gives back the vertex text. |
| LineStrings.WidenAll | NetStGeometry/Geometry/StLineString.cs:189-218 | Widening fails with a null-reference error iff some point lacks a tracked ordinate. Untracked Z and M ranges stay unchanged. |
| LineStrings.ComputeExtents | NetStGeometry/Geometry/StLineString.cs:180-218 | No points is an out-of-range error, and a point missing a tracked ordinate a null-reference error. Untracked Z or M ranges are (0, 0). |
| LineStringLaws.ExtentsSpan | NetStGeometry/Geometry/StLineString.cs:180-218 | Each tracked axis range is the minimum and maximum over the points: every ordinate lies within it, and both bounds are attained. |
| LineStrings.LineFromPoints | NetStGeometry/Geometry/StLineString.cs:47-65 | Fewer than 2 points is an ArgumentException, and M fails. The line keeps the points and takes Z from the first. Its extents are those of the points and its bytes the polyline payload. |
| LineStrings.StepDifferences | NetStGeometry/Geometry/StLineString.cs:328-351 | One step needs a vertex with enough runs, and yields an empty Z difference on a line without Z. |
| LineStrings.Differences | NetStGeometry/Geometry/StLineString.cs:325-354 | Success implies every later vertex splits into enough runs. Without Z, the Z part is empty. |
| LineStrings.LineBody | NetStGeometry/Geometry/StLineString.cs:312-361 | Success implies every vertex splits into enough runs. |
| LineStringLaws.LineBodyOf | NetStGeometry/Geometry/StLineString.cs:312-361 | The body is the first vertex's X, Y runs, each step's X, Y differences, then the first Z run and the Z differences. |
| LineStrings.LinePayload | NetStGeometry/Geometry/StLineString.cs:307-366 | M fails with NotSupportedException. With a short count, the payload's body is the line body and its header states Z as the line has it and no M. |
| LineStrings.DecodeNext | NetStGeometry/Geometry/StLineString.cs:277-303 | The next vertex's X, Y and Z runs are rebuilt from the stored differences and the previous vertex's runs. |
| LineStrings.DecodeFrom | NetStGeometry/Geometry/StLineString.cs:275-304 | The remaining vertices number n − j, all of the line's dimension. |
| LineStrings.DecodePoints | NetStGeometry/Geometry/StLineString.cs:236-305 | No vertex at all is an out-of-range error. Otherwise n vertices of the line's dimension, the first rebuilt in full from runs 0, 1 and the first Z run. |
| LineStringLaws.DecodePointsOf | NetStGeometry/Geometry/StLineString.cs:236-305 | Decoding the layout the encoder writes gives back exactly the original vertices. |
| LineStrings.LineFromBytes | NetStGeometry/Geometry/StLineString.cs:19-45 | Input shorter than 8 bytes is an index error. The line keeps the bytes and takes its dimension from the header, without M. It has 2 (XY) or 3 (XYZ) runs per vertex, and its extents are those of its vertices. |
| LineStrings.LineFromRuns | NetStGeometry/Geometry/StLineString.cs:30-43 | The run-count checks after the header: without Z or M, fewer than 4 or an odd number of runs is an ArgumentException; with Z or M, a count not divisible by 3 is too, and with both, one not divisible by 4. Any M fails. On success the line has 2 (XY) or 3 (XYZ) runs per vertex, at least two vertices without Z, the header's Z flag, no M, and the extents of its vertices. |
| LineStringLaws.LineFromBytesOf | NetStGeometry/Geometry/StLineString.cs:19-45 | A payload with a valid header and at least two vertices decoded from its runs is read as exactly the line of those vertices. |
| LineStringLaws.LineBytesRoundTrip | NetStGeometry/Geometry/StLineString.cs:19-65 | A line built from points made from in-range values, whose steps fit, is read back identically from its own payload. |
| LineStrings.LineHeader | NetStGeometry/Geometry/StLineString.cs:107-110 | The header is the 8 bytes that, with the body, rebuild the payload. A shorter payload is an error. |
| LineStrings.LineMaxZ | NetStGeometry/Geometry/StLineString.cs:117-127 | Returns the Z maximum iff the line has Z, else ArgumentException. |
| LineStrings.LineMinZ | NetStGeometry/Geometry/StLineString.cs:129-139 | Returns the Z minimum iff the line has Z, else ArgumentException. |
| LineStrings.LineMaxM | NetStGeometry/Geometry/StLineString.cs:141-151 | As written: returns the M maximum iff the line has Z, else ArgumentException. |
| LineStrings.LineMinM | NetStGeometry/Geometry/StLineString.cs:153-163 | As written: returns the M minimum iff the line has Z, else ArgumentException. |
| LineStrings.LineMaxMChecked | NetStGeometry/Geometry/StLineString.cs:141-151 | Corrected: returns the M maximum iff the line has M, else ArgumentException. |
| LineStrings.LineMinMChecked | NetStGeometry/Geometry/StLineString.cs:153-163 | Corrected: returns the M minimum iff the line has M, else ArgumentException. |
| LineStringLaws.MeasureOfZLine | NetStGeometry/Geometry/StLineString.cs:141-163 | On a Z line without M, the as-written M getters return 0 and the corrected ones fail. |
| LineStrings.PointsFromTexts | NetStGeometry/Geometry/StLineString.cs:77-99 | One point per comma-separated text. |
| LineTextLaws.PointsFromTextsRead | NetStGeometry/Geometry/StLineString.cs:77-99 | A successful read makes the k-th point exactly what the k-th text's tokens build. |
| LineTextLaws.PointsFromTextsOf | NetStGeometry/Geometry/StLineString.cs:77-99 | Conversely, when each text's tokens build the k-th point, the list reads as those points. |
| LineStrings.VertexList | NetStGeometry/Geometry/StLineString.cs:376-380 | Each vertex text followed by ", ". Its meaning is stated by `LineTextLaws.VertexListJoin`. |
| LineStrings.LineToString | NetStGeometry/Geometry/StLineString.cs:368-383 | The prefix, " (", the vertex list with its trailing ", " trimmed, ")". Its meaning is stated by `LineTextLaws.LineTextShape`. |
| LineStrings.LineFromWkt | NetStGeometry/Geometry/StLineString.cs:67-103 | Text containing M fails, and so does text with no vertex. The line has Z iff the text does. Its points are read from the comma-separated vertex texts, and its extents and bytes are those of the points. |
| LineTextLaws.VertexListJoin | NetStGeometry/Geometry/StLineString.cs:376-380 | The accumulated vertex list is the vertex texts joined by ", " with a trailing ", ". |
| LineTextLaws.LineTextShape | NetStGeometry/Geometry/StLineString.cs:368-383 | The text is "LINESTRING", " Z" when the line has Z, " (", the vertex texts joined by ", ", ")". |
| LineTextLaws.SplitVertexList | NetStGeometry/Geometry/StLineString.cs:77 | Splitting the joined vertex texts on commas gives each text, the later ones with their leading space. |
| LineTextLaws.LineWktRoundTrip | NetStGeometry/Geometry/StLineString.cs:67-103 | A line of points built from values, all with the first point's Z flag, is read back identically from its own WKT. |
| DocumentedRuns.SignExamples | NetStGeometry/Tools/StCoordinatesSystemHelper.cs:178-198 | With the default radii, the lone byte 63 is positive with digit 63 and 65 negative with digit 1. A longer run whose first byte is 130 is positive with digit 2, and one starting with 193 is negative with digit 1. |
| DocumentedRuns.LoneByteRun | NetStGeometry/Tools/StCoordinatesSystem.cs:110-115 | In the default system, 63 units above the origin is the run {63}, and {63} decodes back to it. |
| DocumentedRuns.MarkedZeroRun | NetStGeometry/Tools/StCoordinatesSystem.cs:110-115 | In the default system, 64 units above the origin is the run {128 1}: a first digit 0 carrying the marker, then one unit of 64. It decodes back. |
| DocumentedRuns.NegativeLoneByteRun | NetStGeometry/Tools/StCoordinatesSystemHelper.cs:181-183 | In the default system, one unit below the origin is the run {65}, and {65} decodes back to it. |
| DocumentedRuns.MarkedTwoRun | NetStGeometry/Tools/StCoordinatesSystemHelper.cs:195-196 | In the default system, 66 units above the origin is the run {130 1}, and it decodes back. |
| DocumentedRuns.NegativeTwoByteRun | NetStGeometry/Tools/StCoordinatesSystemHelper.cs:195-196 | In the default system, 65 units below the origin is the run {193 1}, the flagged form of {129 1}, and it decodes back. |
| DocumentedRuns.UnitStepRun | NetStGeometry/Geometry/StLineString.cs:240 | In the default system, 10000 resolution units above the origin (1 at a resolution of 0.0001) is the run {144 156 1} that the polyline Z (0 0 0, 1 1 1) stores for each of its steps. It decodes back. |
| DocumentedRuns.FarRun | NetStGeometry/Geometry/StLineString.cs:240 | In the default system, 10^9 resolution units above the origin (a Z of 0 at a resolution of 0.0001, with the Z origin at -100000) is the five-byte run {128 168 214 185 7}. It decodes back. |
| DocumentedRuns.ZeroRun | NetStGeometry/Geometry/StLineString.cs:240 | In the default system, 293864000000 units above the origin is the run {128 168 198 186 141 17}, the first X run of the documented polyline, and the point 0 of the difference example. It decodes back. |
| DocumentedRuns.MinusOneRun | NetStGeometry/Tools/StCoordinatesSystemHelper.cs:144 | In the default system, 293863990000 units above the origin, 10000 below the run of 0, is the run {176 139 197 186 141 17} that the difference example gives for -1. It decodes back. |
| DocumentedRuns.MinusTwoRun | NetStGeometry/Tools/StCoordinatesSystemHelper.cs:147-157 | In the default system, 293863980000 units above the origin, 20000 below the run of 0, is the run {160 239 195 186 141 17}. It decodes back. |
| DocumentedRuns.NegativeStepRun | NetStGeometry/Tools/StCoordinatesSystemHelper.cs:142 | In the default system, the run {208 156 1} of the difference example is 10000 units below the origin: the step -1, not +1. Both directions hold. |
| DocumentedRuns.CommentDifferenceAsWritten | NetStGeometry/Tools/StCoordinatesSystemHelper.cs:139-158 | As written: rebuilding the example's difference run {208 156 1} against the run of -1 gives the run of -2, {160 239 195 186 141 17}, and not the run of 0. |
| DocumentedRuns.CommentDifferenceWritten | NetStGeometry/Tools/StCoordinatesSystemHelper.cs:160-175 | The difference encoder stores the point 0 after the point -1 as {144 156 1}, the step +1 of the documented polyline. |
| DocumentedRuns.CommentDifferenceCorrected | NetStGeometry/Tools/StCoordinatesSystemHelper.cs:139-158 | Corrected: rebuilding {144 156 1} against the run of -1 gives the run of 0, {128 168 198 186 141 17}. |
| DocumentedRuns.DefaultCountIsOneByte | NetStGeometry/Tools/StCoordinatesSystemHelper.cs:17-60 | In the default system, a count below 64 is written as the single byte holding it. |
| DocumentedRuns.TopLevelIs | NetStGeometry/Tools/StCoordinatesSystemHelper.cs:75-81 | The level the value encoder starts from is the highest one whose weight does not exceed the magnitude. |

## Left out

- Length2D and Length3D (`StLineString.cs:165-166`, `220-232`) are not modelled: they use double-precision square roots.
- The `StPoint(double, …)` constructor is not modelled: it only converts doubles to decimals.
- Resolution: coordinates are whole resolution units. Decimal values between two units, and a resolution other than the unit, are not modelled.
- Decimal text: formatting with `"0.####"` and `Convert.ToDecimal` are parameters. The WKT laws assume only that they are inverse on the values written. That holds only for a resolution of 0.0001 or coarser, because `"0.####"` rounds to four decimals.
- `ToUpper` is culture-dependent in .NET; the model upper-cases ASCII only.
- `StParameters.CoordinatesSystem` is a process-wide setting; here it is an explicit parameter.
- The Oracle user-defined-type plumbing, the multipart stubs and the `IStGeometry` interfaces are not part of this model.
- M ordinates: every M path of the source ends in NotSupportedException. The model reaches the same error and does not model the M branches behind it, which that error makes unreachable.
- Decimal range of the factors: `ByteFactors` are C# decimals (`StCoordinatesSystem.cs:63-68`), which overflow past about 7.9 × 10^28. The model counts in resolution units with unbounded integers, so the OverflowException of a very long coefficient list is not modelled.
- Setters: the public setters of the line extents are left out.
- `CoordinatesSystemHelperLaws.RoundTrip`: only covers values closer to the origin than the weight of the top level. A run of all \|coeff\| levels makes the decoder index `ByteCoeff[i + 1]` past the end, so such values do not read back.
- `GeometryHelper.HeaderRoundTrip`: stated only when the body-length run fits in 4 bytes. A longer count run lengthens the header past 8 bytes, and that layout is not treated as readable.
- `GeometryHelper.FrameLayout`: stated only when the body-length run fits in 4 bytes, for the same reason.
- `PointLaws.PointBytesRoundTrip`: requires the system to keep point bodies below the level-1 count unit and its radii product within a `long` (`PointBodiesFit`), which the default system does (`PointLaws.DefaultsFit`). In a system whose product wraps, the body length is written in as many bytes as there are radii (`CoordinatesSystemHelperLaws.WrappedCountThreshold`), and the header is no longer 8 bytes.
- `LineStringLaws.LineBytesRoundTrip`: for the same reason, requires the body-length run to fit in 4 bytes.
- `LineStringLaws.LineBytesRoundTrip`: also requires every vertex to come from the value constructor and every step to be storable as a difference.
- `LineTextLaws.LineWktRoundTrip`: requires every vertex to come from the value constructor with the first vertex's Z flag. Lines of mixed dimension write text that does not read back the same.
- `LineStrings.PointsFromTexts`: its contract states only the count; what each point is is in `LineTextLaws.PointsFromTextsRead`.
- `LineStrings.StepDifferences`: its contract states only the shape of one step; the runs it produces are stated by `LineStringLaws.LineBodyOf`.
- `LineStrings.Differences`: its contract states only that every vertex splits into runs; the runs it produces are stated by `LineStringLaws.LineBodyOf`.
- `LineStrings.LineBody`: its contract states only that every vertex splits into runs; its bytes are stated by `LineStringLaws.LineBodyOf`.
- `LineStrings.DecodeFrom`: its contract states only the count and dimension of the vertices; which vertices they are is stated by `LineStringLaws.DecodePointsOf`.
- `CoordinatesSystemHelper.GetBytesFromCount`: takes a `nat`, so the `int` overload's branch that flags a negative count (`StCoordinatesSystemHelper.cs:17-60`) is not modelled. Its only caller passes a body length, which is never negative.
- `CoordinatesSystemHelper.GetValueFromBytes`: its contract states when decoding succeeds; the value decoded is stated by `CoordinatesSystemHelperLaws.DecodeIs`.

## Findings

| source | as written | input that shows it | evidently intended | confidence | as-written member | corrected member |
|---|---|---|---|---|---|---|
| NetStGeometry/Geometry/StPoint.cs:22 | `HasM = HasM;` assigns the property to itself, so a point read from bytes never has M | header `[3,0,0,0,1,2,0,0]` (dimension byte 2, M only) with body `[0,0,0]`: read as a 2D point at the origin | `HasM = hasM;` — take the M flag from the header, which then rejects the payload as M is unsupported | not executed | Points.PointFromBytes, Points.DroppedMeasureFlag | Points.PointFromBytesChecked |
| NetStGeometry/Geometry/StLineString.cs:141-163 | MinM and MaxM guard on `HasZ` | any Z line without M: MinM returns 0 instead of throwing | guard on `HasM`, like MinZ and MaxZ guard on `HasZ` | not executed | LineStrings.LineMinM, LineStrings.LineMaxM, LineStringLaws.MeasureOfZLine | LineStrings.LineMinMChecked, LineStrings.LineMaxMChecked |
| NetStGeometry/Tools/StCoordinatesSystemHelper.cs:141-145 | The comment of GetBytesFromDifference gives {208 156 1} as the difference +1 from the run of -1, {176 139 197 186 141 17}, rebuilding the point 0. The code decodes 208 as 144 plus the sign flag, so the run is the difference -1. | difference run {208 156 1}, previous run {176 139 197 186 141 17}, in the default system: the rebuilt run is {160 239 195 186 141 17}, the point -2 | the difference +1 is {144 156 1}, as GetDifferenceFromBytes writes it and as StLineString.cs:240 documents it | not executed | DocumentedRuns.CommentDifferenceAsWritten, DocumentedRuns.NegativeStepRun | DocumentedRuns.CommentDifferenceCorrected, DocumentedRuns.CommentDifferenceWritten, DocumentedRuns.UnitStepRun |
