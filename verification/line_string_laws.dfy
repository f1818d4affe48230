/**
 * Properties of polylines: the extents are the tightest ranges of the
 * ordinates, a polyline built from points is read back from its own payload,
 * and the M getters as written answer for lines that have no M.
 */
module LineStringLaws {
  import opened Errors
  import opened CoordinatesSystems
  import opened CoordinatesSystemHelper
  import opened CoordinatesSystemHelperLaws
  import opened CoordinateDifferences
  import opened Coordinates
  import opened GeometryHelper
  import opened Points
  import opened PointLaws
  import opened LineStrings

  /** The range of one ordinate in the extents. */
  function Axis(e: Extents, axis: CoordType): Range
  {
    match axis
    case X => e.x
    case Y => e.y
    case Z => e.z
    case M => e.m
  }

  /** The extents follow the axis under the flags: X and Y always, Z and M when flagged. */
  predicate Tracked(axis: CoordType, hasZ: bool, hasM: bool)
  {
    (axis == Z ==> hasZ) && (axis == M ==> hasM)
  }

  /** `r` is the tightest range holding the values: every value lies in it and both ends are values. */
  predicate Spans(r: Range, vs: seq<int>)
  {
    && (forall i :: 0 <= i < |vs| ==> r.min <= vs[i] <= r.max)
    && (exists i :: 0 <= i < |vs| && vs[i] == r.min)
    && (exists i :: 0 <= i < |vs| && vs[i] == r.max)
  }

  lemma SpansOne(v: int)
    ensures Spans(Range(v, v), [v])
  {
    assert [v][0] == v;
  }

  lemma SpansInclude(r: Range, vs: seq<int>, v: int)
    requires Spans(r, vs)
    ensures Spans(Include(r, v), vs + [v])
  {
    var ws := vs + [v];
    var i :| 0 <= i < |vs| && vs[i] == r.min;
    var j :| 0 <= j < |vs| && vs[j] == r.max;
    assert ws[i] == vs[i] && ws[j] == vs[j] && ws[|vs|] == v;
    assert forall k :: 0 <= k < |vs| ==> ws[k] == vs[k];
  }

  lemma WidenAxis(e: Extents, p: Point, hasZ: bool, hasM: bool, e': Extents, axis: CoordType)
    requires Widen(e, p, hasZ, hasM) == Ok(e') && Tracked(axis, hasZ, hasM)
    ensures Axis(e', axis) == Include(Axis(e, axis), Ordinate(p, axis))
  {
  }

  /** Widening by points extends a span of the values seen so far by the points' values. */
  lemma {:induction false} WidenAllSpans(e: Extents, points: seq<Point>, hasZ: bool, hasM: bool,
                                         axis: CoordType, seen: seq<int>, e': Extents)
    requires WidenAll(e, points, hasZ, hasM) == Ok(e') && Tracked(axis, hasZ, hasM)
    requires Spans(Axis(e, axis), seen)
    ensures Spans(Axis(e', axis), seen + Ordinates(points, axis))
    decreases |points|
  {
    if points == [] {
      assert seen + Ordinates(points, axis) == seen;
    } else {
      var e1 := WidenFirst(e, points, hasZ, hasM, e');
      WidenSpans(e, points[0], hasZ, hasM, e1, axis, seen);
      WidenAllSpans(e1, points[1..], hasZ, hasM, axis, seen + [Ordinate(points[0], axis)], e');
      OrdinatesAfter(points, axis, seen);
    }
  }

  /** Widening by a non-empty list of points widens by the first, then by the others. */
  lemma WidenFirst(e: Extents, points: seq<Point>, hasZ: bool, hasM: bool, e': Extents) returns (e1: Extents)
    requires points != [] && WidenAll(e, points, hasZ, hasM) == Ok(e')
    ensures Widen(e, points[0], hasZ, hasM) == Ok(e1)
    ensures WidenAll(e1, points[1..], hasZ, hasM) == Ok(e')
  {
    e1 := Widen(e, points[0], hasZ, hasM).value;
  }

  /** Widening by one point extends a span by the point's value. */
  lemma WidenSpans(e: Extents, p: Point, hasZ: bool, hasM: bool, e1: Extents, axis: CoordType, seen: seq<int>)
    requires Widen(e, p, hasZ, hasM) == Ok(e1) && Tracked(axis, hasZ, hasM)
    requires Spans(Axis(e, axis), seen)
    ensures Spans(Axis(e1, axis), seen + [Ordinate(p, axis)])
  {
    WidenAxis(e, p, hasZ, hasM, e1, axis);
    SpansInclude(Axis(e, axis), seen, Ordinate(p, axis));
  }

  /** The values of the points after values already seen: the first point's, then the others'. */
  lemma OrdinatesAfter(points: seq<Point>, axis: CoordType, seen: seq<int>)
    requires points != []
    ensures seen + [Ordinate(points[0], axis)] + Ordinates(points[1..], axis) == seen + Ordinates(points, axis)
  {
  }

  /**
   * The extents computed for the points give, on every axis they follow, the
   * least and the greatest value of that ordinate over the points.
   */
  lemma ExtentsSpan(points: seq<Point>, hasZ: bool, hasM: bool, e: Extents, axis: CoordType)
    requires ComputeExtents(points, hasZ, hasM) == Ok(e) && Tracked(axis, hasZ, hasM)
    ensures Spans(Axis(e, axis), Ordinates(points, axis))
  {
    var v := Ordinate(points[0], axis);
    var e0 := Start(points[0], hasZ, hasM).value;
    assert Axis(e0, axis) == Range(v, v);
    SpansOne(v);
    WidenAllSpans(e0, points[1..], hasZ, hasM, axis, [v], e);
    assert [v] + Ordinates(points[1..], axis) == Ordinates(points, axis);
  }

  /** The Z value of a point, if it has one. */
  function ZValue(p: Point): Option<int>
  {
    if p.z.Some? then Some(p.z.value.value) else None
  }

  /** The Z run of a point, if it has one. */
  function ZRun(p: Point): Option<seq<byte>>
  {
    if p.z.Some? then Some(p.z.value.bytes) else None
  }

  /** A point the value constructor builds, without M, from values the system encodes losslessly. */
  predicate Encoded(cs: CoordinatesSystem, p: Point)
  {
    && Encodable(cs, p.x.value, p.y.value, ZValue(p))
    && PointFromValues(cs, p.x.value, p.y.value, ZValue(p), None) == Ok(p)
  }

  /** The change from `a` to `b` on the axis, stored as a difference, is a value the system encodes. */
  predicate DeltaInRange(cs: CoordinatesSystem, a: int, b: int, axis: CoordType)
  {
    GetMin(cs, axis).Ok? && InRange(cs, GetMin(cs, axis).value + (b - a), axis)
  }

  /** The steps from one vertex to the next can be stored as differences on every axis the line has. */
  predicate Step(cs: CoordinatesSystem, p: Point, q: Point, hasZ: bool)
  {
    && DeltaInRange(cs, p.x.value, q.x.value, X)
    && DeltaInRange(cs, p.y.value, q.y.value, Y)
    && (hasZ ==> p.z.Some? && q.z.Some? && DeltaInRange(cs, p.z.value.value, q.z.value.value, Z))
  }

  /** Vertices of one dimension, each encodable, with every step storable as differences. */
  predicate EncodedLine(cs: CoordinatesSystem, points: seq<Point>, hasZ: bool)
  {
    && Vertices(points, hasZ)
    && (forall k :: 0 <= k < |points| ==> Encoded(cs, points[k]))
    && (forall k :: 1 <= k < |points| ==> Step(cs, points[k - 1], points[k], hasZ))
  }

  /** The runs of an encoded point: complete, decoding to its coordinates, and rebuilding it. */
  lemma EncodedFacts(cs: CoordinatesSystem, p: Point)
    requires Regular(cs) && PointBodiesFit(cs) && Encoded(cs, p)
    ensures Consistent(p)
    ensures CoordinateFromBytes(cs, p.x.bytes, X) == Ok(p.x) && CoordinateFromValue(cs, p.x.value, X) == Ok(p.x)
    ensures CoordinateFromBytes(cs, p.y.bytes, Y) == Ok(p.y) && CoordinateFromValue(cs, p.y.value, Y) == Ok(p.y)
    ensures p.z.Some? ==>
      && CoordinateFromBytes(cs, p.z.value.bytes, Z) == Ok(p.z.value)
      && CoordinateFromValue(cs, p.z.value.value, Z) == Ok(p.z.value)
    ensures Terminated(p.x.bytes) && Terminated(p.y.bytes) && (p.z.Some? ==> Terminated(p.z.value.bytes))
    ensures GetEncodedValues(RemoveHeader(p.bytes)) == PointRuns(p.x, p.y, p.z, None)
    ensures PointFromRuns(cs, p.x.bytes, p.y.bytes, ZRun(p), None) == Ok(p)
  {
    var cx, cy, cz := CoordinatesOf(cs, p.x.value, p.y.value, ZValue(p));
    assert cx == p.x && cy == p.y && cz == p.z;
    PayloadLayout(cs, cx, cy, cz);
    PointBytesRoundTrip(cs, p.x.value, p.y.value, ZValue(p));
  }

  /**
   * One step on one axis: the difference run of two encoded coordinates is
   * complete, and adding it back to the earlier coordinate gives the later.
   */
  lemma StepRun(cs: CoordinatesSystem, p: Coordinate, q: Coordinate, axis: CoordType) returns (d: seq<byte>)
    requires Regular(cs)
    requires CoordinateFromBytes(cs, p.bytes, axis) == Ok(p)
    requires CoordinateFromBytes(cs, q.bytes, axis) == Ok(q) && CoordinateFromValue(cs, q.value, axis) == Ok(q)
    requires InRange(cs, q.value, axis) && DeltaInRange(cs, p.value, q.value, axis)
    ensures GetDifferenceFromBytes(cs, q.bytes, p.bytes, axis) == Ok(d)
    ensures Terminated(d)
    ensures GetBytesFromDifference(cs, d, p.bytes, axis) == Ok(q.bytes)
  {
    assert GetValueFromBytes(cs, q.bytes, axis) == Ok(q.value) && GetValueFromBytes(cs, p.bytes, axis) == Ok(p.value);
    d := DeltaInverse(cs, q.bytes, p.bytes, axis);
  }

  /** Difference runs that, added back to the ordinates of `p`, give the runs of `q`. */
  predicate Restores(cs: CoordinatesSystem, dx: seq<byte>, dy: seq<byte>, dz: Option<seq<byte>>, p: Point, q: Point)
  {
    && GetBytesFromDifference(cs, dx, p.x.bytes, X) == Ok(q.x.bytes)
    && GetBytesFromDifference(cs, dy, p.y.bytes, Y) == Ok(q.y.bytes)
    && (dz.Some? ==> p.z.Some? && q.z.Some? && GetBytesFromDifference(cs, dz.value, p.z.value.bytes, Z) == Ok(q.z.value.bytes))
  }

  /** The difference runs of one step: complete runs that restore the later vertex. */
  lemma StepRuns(cs: CoordinatesSystem, p: Point, q: Point, hasZ: bool)
    returns (dx: seq<byte>, dy: seq<byte>, dz: seq<byte>)
    requires Regular(cs) && PointBodiesFit(cs)
    requires Encoded(cs, p) && Encoded(cs, q) && Step(cs, p, q, hasZ)
    ensures GetDifferenceFromBytes(cs, q.x.bytes, p.x.bytes, X) == Ok(dx)
    ensures GetDifferenceFromBytes(cs, q.y.bytes, p.y.bytes, Y) == Ok(dy)
    ensures hasZ ==> GetDifferenceFromBytes(cs, q.z.value.bytes, p.z.value.bytes, Z) == Ok(dz)
    ensures Terminated(dx) && Terminated(dy) && (hasZ ==> Terminated(dz))
    ensures Restores(cs, dx, dy, if hasZ then Some(dz) else None, p, q)
    ensures !hasZ ==> dz == []
  {
    EncodedFacts(cs, p);
    EncodedFacts(cs, q);
    dx := StepRun(cs, p.x, q.x, X);
    dy := StepRun(cs, p.y, q.y, Y);
    dz := [];
    if hasZ {
      dz := StepRun(cs, p.z.value, q.z.value, Z);
    }
  }

  /** The runs of an encoded vertex, as its payload lists them. */
  function VertexRuns(p: Point): (runs: seq<seq<byte>>)
    ensures |runs| == if p.z.Some? then 3 else 2
    ensures runs[0] == p.x.bytes && runs[1] == p.y.bytes && (p.z.Some? ==> runs[2] == p.z.value.bytes)
  {
    PointRuns(p.x, p.y, p.z, None)
  }

  /** The X and Y difference runs of the steps, in pairs. */
  function XYRuns(steps: seq<Deltas>): (runs: seq<seq<byte>>)
    ensures |runs| == 2 * |steps|
  {
    if steps == [] then [] else [steps[0].0, steps[0].1] + XYRuns(steps[1..])
  }

  /** The Z difference runs of the steps. */
  function ZRuns(steps: seq<Deltas>): (runs: seq<seq<byte>>)
    ensures |runs| == |steps|
  {
    if steps == [] then [] else [steps[0].2] + ZRuns(steps[1..])
  }

  /** Vertex `p` has the line's dimension and its payload splits into its own runs. */
  predicate SplitsOwn(p: Point, hasZ: bool)
  {
    && Consistent(p) && p.hasZ == hasZ
    && GetEncodedValues(RemoveHeader(p.bytes)) == VertexRuns(p)
  }

  /** The vertices from `i` on split into their own runs. */
  predicate Splits(points: seq<Point>, hasZ: bool, i: nat)
    decreases |points| - i
  {
    i < |points| ==> SplitsOwn(points[i], hasZ) && Splits(points, hasZ, i + 1)
  }

  /** `step` holds the difference runs from vertex `p` to vertex `q`, with an empty Z run on a line without Z. */
  predicate IsStep(cs: CoordinatesSystem, step: Deltas, p: Point, q: Point, hasZ: bool)
  {
    && GetDifferenceFromBytes(cs, q.x.bytes, p.x.bytes, X) == Ok(step.0)
    && GetDifferenceFromBytes(cs, q.y.bytes, p.y.bytes, Y) == Ok(step.1)
    && (hasZ ==> p.z.Some? && q.z.Some? && GetDifferenceFromBytes(cs, q.z.value.bytes, p.z.value.bytes, Z) == Ok(step.2))
    && (!hasZ ==> step.2 == [])
  }

  /** `steps` holds the difference runs of the steps after vertex `j`, one step each. */
  predicate StepsFrom(cs: CoordinatesSystem, points: seq<Point>, hasZ: bool, j: nat, steps: seq<Deltas>)
    decreases |steps|
  {
    if steps == [] then j + 1 >= |points|
    else j + 1 < |points| && IsStep(cs, steps[0], points[j], points[j + 1], hasZ) && StepsFrom(cs, points, hasZ, j + 1, steps[1..])
  }

  /** Between two vertices that split into their own runs, the differences of one step are the step's runs. */
  lemma StepDifferencesOf(cs: CoordinatesSystem, p: Point, q: Point, hasZ: bool, step: Deltas)
    requires SplitsOwn(p, hasZ) && SplitsOwn(q, hasZ) && IsStep(cs, step, p, q, hasZ)
    ensures StepDifferences(cs, GetEncodedValues(RemoveHeader(q.bytes)), VertexRuns(p), hasZ) == Ok(step)
  {
  }

  /** One vertex of `Differences`: its step's runs in front of the rest. */
  lemma DifferencesStep(cs: CoordinatesSystem, points: seq<Point>, hasZ: bool, i: nat, previous: seq<seq<byte>>,
                        step: Deltas, rest: (seq<byte>, seq<byte>))
    requires |previous| >= 2 && (hasZ ==> |previous| >= 3)
    requires i < |points|
    requires StepDifferences(cs, GetEncodedValues(RemoveHeader(points[i].bytes)), previous, hasZ) == Ok(step)
    requires Differences(cs, points, hasZ, i + 1, GetEncodedValues(RemoveHeader(points[i].bytes))) == Ok(rest)
    ensures Differences(cs, points, hasZ, i, previous) == Ok((step.0 + step.1 + rest.0, step.2 + rest.1))
  {
  }

  lemma FlattenPair(a: seq<byte>, b: seq<byte>, rest: seq<seq<byte>>)
    ensures Flatten([a, b] + rest) == a + b + Flatten(rest)
  {
    assert [a, b] + rest == [a] + ([b] + rest);
    FlattenCons(b, rest);
    FlattenCons(a, [b] + rest);
  }

  lemma FlattenSteps(steps: seq<Deltas>)
    requires |steps| > 0
    ensures Flatten(XYRuns(steps)) == steps[0].0 + steps[0].1 + Flatten(XYRuns(steps[1..]))
    ensures Flatten(ZRuns(steps)) == steps[0].2 + Flatten(ZRuns(steps[1..]))
  {
    FlattenPair(steps[0].0, steps[0].1, XYRuns(steps[1..]));
    FlattenCons(steps[0].2, ZRuns(steps[1..]));
  }

  /**
   * `Differences` from vertex `i` on, against the runs of vertex `j` just
   * before it, lays out the X and Y runs of the steps, then their Z runs.
   */
  lemma {:induction false} DifferencesOf(cs: CoordinatesSystem, points: seq<Point>, hasZ: bool, i: nat, j: nat, steps: seq<Deltas>)
    requires i == j + 1 && j < |points|
    requires Splits(points, hasZ, j)
    requires StepsFrom(cs, points, hasZ, j, steps)
    ensures Differences(cs, points, hasZ, i, VertexRuns(points[j])) == Ok((Flatten(XYRuns(steps)), Flatten(ZRuns(steps))))
    decreases |points| - j
  {
    if steps == [] {
      DifferencesNone(cs, points, hasZ, i, j, steps);
    } else {
      StepsAhead(cs, points, hasZ, j, steps);
      DifferencesOf(cs, points, hasZ, i + 1, j + 1, steps[1..]);
      DifferencesCons(cs, points, hasZ, i, j, steps);
    }
  }

  /** One step along the vertices: the next vertex exists, and the facts carry over to the vertices after it. */
  lemma StepsAhead(cs: CoordinatesSystem, points: seq<Point>, hasZ: bool, j: nat, steps: seq<Deltas>)
    requires steps != []
    requires Splits(points, hasZ, j)
    requires StepsFrom(cs, points, hasZ, j, steps)
    ensures j + 1 < |points|
    ensures SplitsOwn(points[j], hasZ) && SplitsOwn(points[j + 1], hasZ)
    ensures IsStep(cs, steps[0], points[j], points[j + 1], hasZ)
    ensures Splits(points, hasZ, j + 1)
    ensures StepsFrom(cs, points, hasZ, j + 1, steps[1..])
  {
    assert Splits(points, hasZ, j + 1);
  }

  /** The vertex after vertex `j`. */
  lemma NextVertex(points: seq<Point>, i: nat, j: nat)
    requires i == j + 1 && i < |points|
    ensures points[i] == points[j + 1]
  {
  }

  lemma DifferencesNone(cs: CoordinatesSystem, points: seq<Point>, hasZ: bool, i: nat, j: nat, steps: seq<Deltas>)
    requires i == j + 1 && j < |points| && steps == []
    requires Splits(points, hasZ, j)
    requires StepsFrom(cs, points, hasZ, j, steps)
    ensures Differences(cs, points, hasZ, i, VertexRuns(points[j])) == Ok((Flatten(XYRuns(steps)), Flatten(ZRuns(steps))))
  {
  }

  lemma DifferencesCons(cs: CoordinatesSystem, points: seq<Point>, hasZ: bool, i: nat, j: nat, steps: seq<Deltas>)
    requires i == j + 1 && i < |points| && |steps| > 0
    requires Splits(points, hasZ, j)
    requires StepsFrom(cs, points, hasZ, j, steps)
    requires Differences(cs, points, hasZ, i + 1, VertexRuns(points[j + 1])) == Ok((Flatten(XYRuns(steps[1..])), Flatten(ZRuns(steps[1..]))))
    ensures Differences(cs, points, hasZ, i, VertexRuns(points[j])) == Ok((Flatten(XYRuns(steps)), Flatten(ZRuns(steps))))
  {
    StepsAhead(cs, points, hasZ, j, steps);
    NextVertex(points, i, j);
    StepDifferencesOf(cs, points[j], points[j + 1], hasZ, steps[0]);
    DifferencesStep(cs, points, hasZ, i, VertexRuns(points[j]), steps[0],
                    (Flatten(XYRuns(steps[1..])), Flatten(ZRuns(steps[1..]))));
    FlattenSteps(steps);
  }

  /** The difference runs of one step are complete and restore the later vertex from the earlier. */
  predicate StepOk(cs: CoordinatesSystem, step: Deltas, p: Point, q: Point, hasZ: bool)
  {
    && Terminated(step.0) && Terminated(step.1) && (hasZ ==> Terminated(step.2))
    && Restores(cs, step.0, step.1, if hasZ then Some(step.2) else None, p, q)
  }

  /** Vertex `q` has the line's dimension and is rebuilt from its own runs. */
  predicate Rebuilt(cs: CoordinatesSystem, q: Point, hasZ: bool)
  {
    && Consistent(q) && q.hasZ == hasZ
    && PointFromRuns(cs, q.x.bytes, q.y.bytes, ZRun(q), None) == Ok(q)
  }

  /** Each step after vertex `i` restores the next vertex, which its own runs rebuild. */
  predicate ChainFrom(cs: CoordinatesSystem, points: seq<Point>, hasZ: bool, i: nat, steps: seq<Deltas>)
    decreases |steps|
  {
    if steps == [] then i + 1 >= |points|
    else
      && i + 1 < |points|
      && StepOk(cs, steps[0], points[i], points[i + 1], hasZ)
      && Rebuilt(cs, points[i + 1], hasZ)
      && ChainFrom(cs, points, hasZ, i + 1, steps[1..])
  }

  /** An encoded vertex of the line's dimension splits into its own runs, which rebuild it. */
  lemma VertexFacts(cs: CoordinatesSystem, p: Point, hasZ: bool)
    requires Regular(cs) && PointBodiesFit(cs) && Encoded(cs, p) && p.hasZ == hasZ
    ensures SplitsOwn(p, hasZ) && Rebuilt(cs, p, hasZ)
  {
    EncodedFacts(cs, p);
  }

  /** The difference runs of one storable step between encoded vertices. */
  lemma StepFacts(cs: CoordinatesSystem, p: Point, q: Point, hasZ: bool) returns (step: Deltas)
    requires Regular(cs) && PointBodiesFit(cs)
    requires Encoded(cs, p) && Encoded(cs, q) && Step(cs, p, q, hasZ)
    ensures IsStep(cs, step, p, q, hasZ) && StepOk(cs, step, p, q, hasZ)
  {
    var dx, dy, dz := StepRuns(cs, p, q, hasZ);
    step := (dx, dy, dz);
  }

  /** The vertices from `i` on are encoded, of the line's dimension, and each step to the next is storable. */
  predicate EncodedFrom(cs: CoordinatesSystem, points: seq<Point>, hasZ: bool, i: nat)
    decreases |points| - i
  {
    i < |points| ==>
      && Encoded(cs, points[i]) && points[i].hasZ == hasZ
      && (i + 1 < |points| ==> Step(cs, points[i], points[i + 1], hasZ))
      && EncodedFrom(cs, points, hasZ, i + 1)
  }

  lemma {:induction false} EncodedLineFrom(cs: CoordinatesSystem, points: seq<Point>, hasZ: bool, i: nat)
    requires EncodedLine(cs, points, hasZ)
    ensures EncodedFrom(cs, points, hasZ, i)
    decreases |points| - i
  {
    if i < |points| {
      EncodedLineFrom(cs, points, hasZ, i + 1);
    }
  }

  /** One more step in front of the steps from the next vertex on. */
  lemma ChainCons(cs: CoordinatesSystem, points: seq<Point>, hasZ: bool, j: nat, step: Deltas, rest: seq<Deltas>)
    requires j + 1 < |points|
    requires IsStep(cs, step, points[j], points[j + 1], hasZ) && StepOk(cs, step, points[j], points[j + 1], hasZ)
    requires Rebuilt(cs, points[j + 1], hasZ) && SplitsOwn(points[j], hasZ)
    requires StepsFrom(cs, points, hasZ, j + 1, rest) && ChainFrom(cs, points, hasZ, j + 1, rest)
    requires Splits(points, hasZ, j + 1)
    ensures StepsFrom(cs, points, hasZ, j, [step] + rest) && ChainFrom(cs, points, hasZ, j, [step] + rest)
    ensures Splits(points, hasZ, j)
  {
    assert ([step] + rest)[1..] == rest;
  }

  /** The step from vertex `i` to the next, in front of the steps after it. */
  lemma ChainStep(cs: CoordinatesSystem, points: seq<Point>, hasZ: bool, i: nat, rest: seq<Deltas>) returns (step: Deltas)
    requires Regular(cs) && PointBodiesFit(cs)
    requires i + 1 < |points| && EncodedFrom(cs, points, hasZ, i)
    requires StepsFrom(cs, points, hasZ, i + 1, rest) && ChainFrom(cs, points, hasZ, i + 1, rest)
    requires Splits(points, hasZ, i + 1)
    ensures StepsFrom(cs, points, hasZ, i, [step] + rest) && ChainFrom(cs, points, hasZ, i, [step] + rest)
    ensures Splits(points, hasZ, i)
    ensures Terminated(step.0) && Terminated(step.1) && (hasZ ==> Terminated(step.2))
  {
    assert EncodedFrom(cs, points, hasZ, i + 1);
    VertexFacts(cs, points[i], hasZ);
    VertexFacts(cs, points[i + 1], hasZ);
    step := StepFacts(cs, points[i], points[i + 1], hasZ);
    ChainCons(cs, points, hasZ, i, step, rest);
  }

  /** The last vertex: no steps after it. */
  lemma ChainEnd(cs: CoordinatesSystem, points: seq<Point>, hasZ: bool, i: nat)
    requires Regular(cs) && PointBodiesFit(cs)
    requires i + 1 == |points| && EncodedFrom(cs, points, hasZ, i)
    ensures StepsFrom(cs, points, hasZ, i, []) && ChainFrom(cs, points, hasZ, i, [])
    ensures Splits(points, hasZ, i)
  {
    VertexFacts(cs, points[i], hasZ);
  }

  /** An encodable polyline has the difference runs of its steps after vertex `i`. */
  lemma {:induction false} BuildSteps(cs: CoordinatesSystem, points: seq<Point>, hasZ: bool, i: nat)
    returns (steps: seq<Deltas>)
    requires Regular(cs) && PointBodiesFit(cs)
    requires i < |points| && EncodedFrom(cs, points, hasZ, i)
    ensures |steps| == |points| - i - 1
    ensures StepsFrom(cs, points, hasZ, i, steps) && ChainFrom(cs, points, hasZ, i, steps)
    ensures Splits(points, hasZ, i)
    ensures AllTerminated(XYRuns(steps)) && (hasZ ==> AllTerminated(ZRuns(steps)))
    decreases |points| - i
  {
    if i + 1 == |points| {
      ChainEnd(cs, points, hasZ, i);
      steps := [];
    } else {
      var rest := BuildSteps(cs, points, hasZ, i + 1);
      var step := ChainStep(cs, points, hasZ, i, rest);
      TerminatedCons(step, rest, hasZ);
      steps := [step] + rest;
    }
  }

  /**
   * The runs of a polyline body: the X and Y runs of the first vertex, the X
   * and Y difference runs of the steps, then, with Z, the Z run of the first
   * vertex and the Z difference runs.
   */
  function LineRuns(p: Point, steps: seq<Deltas>, hasZ: bool): (runs: seq<seq<byte>>)
    requires hasZ ==> p.z.Some?
    ensures hasZ ==> |runs| == 3 * (|steps| + 1)
    ensures !hasZ ==> |runs| == 2 * (|steps| + 1)
  {
    [p.x.bytes, p.y.bytes] + XYRuns(steps) + (if hasZ then [p.z.value.bytes] + ZRuns(steps) else [])
  }

  lemma {:induction false} XYRunsAt(steps: seq<Deltas>, k: nat)
    requires k < |steps|
    ensures XYRuns(steps)[2 * k] == steps[k].0 && XYRuns(steps)[2 * k + 1] == steps[k].1
    decreases k
  {
    if k > 0 {
      XYRunsAt(steps[1..], k - 1);
    }
  }

  lemma {:induction false} ZRunsAt(steps: seq<Deltas>, k: nat)
    requires k < |steps|
    ensures ZRuns(steps)[k] == steps[k].2
    decreases k
  {
    if k > 0 {
      ZRunsAt(steps[1..], k - 1);
    }
  }

  /** Where the runs of step `k` sit in a polyline body of `n` vertices. */
  lemma LineRunsAt(p: Point, steps: seq<Deltas>, hasZ: bool, n: nat, k: nat)
    requires hasZ ==> p.z.Some?
    requires n == |steps| + 1 && k < |steps|
    ensures LineRuns(p, steps, hasZ)[2 * (k + 1)] == steps[k].0
    ensures LineRuns(p, steps, hasZ)[2 * (k + 1) + 1] == steps[k].1
    ensures hasZ ==> LineRuns(p, steps, hasZ)[2 * n + (k + 1)] == steps[k].2
  {
    XYRunsAt(steps, k);
    ZRunsAt(steps, k);
  }

  /** The vertex after vertex `i` is decoded from its difference runs and vertex `i`. */
  lemma DecodeNextOf(cs: CoordinatesSystem, points: seq<Point>, hasZ: bool, steps: seq<Deltas>, i: nat)
    requires |points| == |steps| + 1 && i + 1 < |points|
    requires hasZ ==> points[0].z.Some?
    requires StepOk(cs, steps[i], points[i], points[i + 1], hasZ) && Rebuilt(cs, points[i + 1], hasZ)
    ensures DecodeNext(cs, LineRuns(points[0], steps, hasZ), hasZ, if hasZ then 2 * |points| else 0, i + 1, points[i])
         == Ok(points[i + 1])
  {
    LineRunsAt(points[0], steps, hasZ, |points|, i);
  }

  /** Each vertex after vertex `i` is decoded from its runs and the vertex before it. */
  predicate DecodesFrom(cs: CoordinatesSystem, runs: seq<seq<byte>>, hasZ: bool, zIndex: nat, points: seq<Point>, i: nat)
    requires 2 * |points| <= |runs| && (hasZ ==> zIndex + |points| <= |runs|)
    decreases |points| - i
  {
    i + 1 < |points| ==>
      && DecodeNext(cs, runs, hasZ, zIndex, i + 1, points[i]) == Ok(points[i + 1])
      && DecodesFrom(cs, runs, hasZ, zIndex, points, i + 1)
  }

  /** A chain of steps decodes vertex by vertex. */
  lemma {:induction false} ChainDecodes(cs: CoordinatesSystem, points: seq<Point>, hasZ: bool, steps: seq<Deltas>, i: nat)
    requires |points| == |steps| + 1 && i < |points|
    requires hasZ ==> points[0].z.Some?
    requires ChainFrom(cs, points, hasZ, i, steps[i..])
    ensures DecodesFrom(cs, LineRuns(points[0], steps, hasZ), hasZ, if hasZ then 2 * |points| else 0, points, i)
    decreases |points| - i
  {
    if i + 1 < |points| {
      var tail := steps[i..];
      assert tail[0] == steps[i] && tail[1..] == steps[i + 1..];
      DecodeNextOf(cs, points, hasZ, steps, i);
      ChainDecodes(cs, points, hasZ, steps, i + 1);
    }
  }

  /** One more decoded vertex in front of the ones decoded after it. */
  lemma DecodeFromCons(cs: CoordinatesSystem, runs: seq<seq<byte>>, hasZ: bool, zIndex: nat, n: nat, j: nat,
                       previous: Point, p: Point, rest: seq<Point>)
    requires 2 * n <= |runs| && (hasZ ==> zIndex + n <= |runs|) && j < n
    requires DecodeNext(cs, runs, hasZ, zIndex, j, previous) == Ok(p)
    requires DecodeFrom(cs, runs, hasZ, zIndex, n, j + 1, p) == Ok(rest)
    ensures DecodeFrom(cs, runs, hasZ, zIndex, n, j, previous) == Ok([p] + rest)
  {
  }

  lemma SliceCons<T>(s: seq<T>, i: nat)
    requires i < |s|
    ensures s[i..] == [s[i]] + s[i + 1..]
  {
  }

  /** Nothing is decoded after the last vertex. */
  lemma DecodeFromLast(cs: CoordinatesSystem, runs: seq<seq<byte>>, hasZ: bool, zIndex: nat, points: seq<Point>, i: nat)
    requires 2 * |points| <= |runs| && (hasZ ==> zIndex + |points| <= |runs|) && i + 1 == |points|
    ensures DecodeFrom(cs, runs, hasZ, zIndex, |points|, i + 1, points[i]) == Ok(points[i + 1..])
  {
    assert points[i + 1..] == [];
  }

  /** The vertices from vertex `k` on are decoded, each against the one before, starting from vertex `i` just before `k`. */
  lemma {:induction false} DecodeFromOf(cs: CoordinatesSystem, runs: seq<seq<byte>>, hasZ: bool, zIndex: nat, points: seq<Point>,
                                        i: nat, k: nat)
    requires 2 * |points| <= |runs| && (hasZ ==> zIndex + |points| <= |runs|) && i < |points| && k == i + 1
    requires DecodesFrom(cs, runs, hasZ, zIndex, points, i)
    ensures DecodeFrom(cs, runs, hasZ, zIndex, |points|, k, points[i]) == Ok(points[k..])
    decreases |points| - i
  {
    if k < |points| {
      DecodeFromOf(cs, runs, hasZ, zIndex, points, i + 1, k + 1);
      SliceCons(points, k);
      DecodeFromCons(cs, runs, hasZ, zIndex, |points|, k, points[i], points[k], points[k + 1..]);
    } else {
      DecodeFromLast(cs, runs, hasZ, zIndex, points, i);
    }
  }

  /** Where the runs of the first vertex sit in a polyline body. */
  lemma LineRunsFirst(p: Point, steps: seq<Deltas>, hasZ: bool)
    requires hasZ ==> p.z.Some?
    ensures LineRuns(p, steps, hasZ)[0] == p.x.bytes && LineRuns(p, steps, hasZ)[1] == p.y.bytes
    ensures hasZ ==> LineRuns(p, steps, hasZ)[2 * (|steps| + 1)] == p.z.value.bytes
  {
  }

  /** The vertices after the first are decoded from a chain of steps. */
  lemma ChainDecodeAll(cs: CoordinatesSystem, points: seq<Point>, hasZ: bool, steps: seq<Deltas>)
    requires |points| == |steps| + 1
    requires hasZ ==> points[0].z.Some?
    requires ChainFrom(cs, points, hasZ, 0, steps)
    ensures DecodeFrom(cs, LineRuns(points[0], steps, hasZ), hasZ, if hasZ then 2 * |points| else 0, |points|, 1, points[0])
         == Ok(points[1..])
  {
    assert steps[0..] == steps;
    ChainDecodes(cs, points, hasZ, steps, 0);
    DecodeFromOf(cs, LineRuns(points[0], steps, hasZ), hasZ, if hasZ then 2 * |points| else 0, points, 0, 1);
  }

  /** The first vertex in front of the ones decoded against it. */
  lemma DecodePointsCons(cs: CoordinatesSystem, runs: seq<seq<byte>>, hasZ: bool, n: nat, points: seq<Point>)
    requires (if hasZ then |runs| == 3 * n else |runs| == 2 * n) && n == |points| >= 1
    requires PointFromRuns(cs, runs[0], runs[1], if hasZ then Some(runs[2 * n]) else None, None) == Ok(points[0])
    requires DecodeFrom(cs, runs, hasZ, if hasZ then 2 * n else 0, n, 1, points[0]) == Ok(points[1..])
    ensures DecodePoints(cs, runs, hasZ, n) == Ok(points)
  {
    HeadTail(points);
  }

  lemma HeadTail<T>(s: seq<T>)
    requires |s| >= 1
    ensures [s[0]] + s[1..] == s
  {
  }

  /** The first vertex is rebuilt from the runs at the head of each half of a polyline body. */
  lemma FirstDecodes(cs: CoordinatesSystem, points: seq<Point>, hasZ: bool, steps: seq<Deltas>)
    requires |points| == |steps| + 1 && Rebuilt(cs, points[0], hasZ)
    ensures hasZ ==> points[0].z.Some?
    ensures var runs := LineRuns(points[0], steps, hasZ);
      PointFromRuns(cs, runs[0], runs[1], if hasZ then Some(runs[2 * |points|]) else None, None) == Ok(points[0])
  {
    LineRunsFirst(points[0], steps, hasZ);
  }

  /** The runs of a polyline body decode to its vertices. */
  lemma DecodePointsOf(cs: CoordinatesSystem, points: seq<Point>, hasZ: bool, steps: seq<Deltas>)
    requires |points| == |steps| + 1
    requires Rebuilt(cs, points[0], hasZ) && ChainFrom(cs, points, hasZ, 0, steps)
    ensures hasZ ==> points[0].z.Some?
    ensures DecodePoints(cs, LineRuns(points[0], steps, hasZ), hasZ, |points|) == Ok(points)
  {
    FirstDecodes(cs, points, hasZ, steps);
    ChainDecodeAll(cs, points, hasZ, steps);
    DecodePointsCons(cs, LineRuns(points[0], steps, hasZ), hasZ, |points|, points);
  }

  lemma {:induction false} FlattenAppend(a: seq<seq<byte>>, b: seq<seq<byte>>)
    ensures Flatten(a + b) == Flatten(a) + Flatten(b)
    decreases |a|
  {
    if a == [] {
      assert a + b == b;
    } else {
      assert (a + b)[1..] == a[1..] + b;
      FlattenAppend(a[1..], b);
    }
  }

  /** The body of an encodable polyline is the concatenation of its runs. */
  lemma LineBodyOf(cs: CoordinatesSystem, points: seq<Point>, hasZ: bool, steps: seq<Deltas>)
    requires |points| == |steps| + 1
    requires Splits(points, hasZ, 0) && StepsFrom(cs, points, hasZ, 0, steps)
    ensures hasZ ==> points[0].z.Some?
    ensures LineBody(cs, points, hasZ) == Ok(Flatten(LineRuns(points[0], steps, hasZ)))
  {
    var p := points[0];
    assert SplitsOwn(p, hasZ);
    DifferencesOf(cs, points, hasZ, 1, 0, steps);
    var tail := if hasZ then [p.z.value.bytes] + ZRuns(steps) else [];
    FlattenPair(p.x.bytes, p.y.bytes, XYRuns(steps));
    FlattenAppend([p.x.bytes, p.y.bytes] + XYRuns(steps), tail);
    if hasZ {
      FlattenCons(p.z.value.bytes, ZRuns(steps));
    }
  }

  /** Every run is complete. */
  predicate AllTerminated(runs: seq<seq<byte>>)
  {
    forall k :: 0 <= k < |runs| ==> Terminated(runs[k])
  }

  lemma AllTerminatedAppend(a: seq<seq<byte>>, b: seq<seq<byte>>)
    requires AllTerminated(a) && AllTerminated(b)
    ensures AllTerminated(a + b)
  {
  }

  /** One more step of complete runs in front of steps of complete runs. */
  lemma TerminatedCons(step: Deltas, rest: seq<Deltas>, hasZ: bool)
    requires Terminated(step.0) && Terminated(step.1) && (hasZ ==> Terminated(step.2))
    requires AllTerminated(XYRuns(rest)) && (hasZ ==> AllTerminated(ZRuns(rest)))
    ensures AllTerminated(XYRuns([step] + rest)) && (hasZ ==> AllTerminated(ZRuns([step] + rest)))
  {
    assert ([step] + rest)[1..] == rest;
    assert AllTerminated([step.0, step.1]);
    AllTerminatedAppend([step.0, step.1], XYRuns(rest));
    if hasZ {
      assert AllTerminated([step.2]);
      AllTerminatedAppend([step.2], ZRuns(rest));
    }
  }

  lemma LineRunsTerminated(p: Point, steps: seq<Deltas>, hasZ: bool)
    requires hasZ ==> p.z.Some?
    requires Terminated(p.x.bytes) && Terminated(p.y.bytes) && (hasZ ==> Terminated(p.z.value.bytes))
    requires AllTerminated(XYRuns(steps)) && (hasZ ==> AllTerminated(ZRuns(steps)))
    ensures AllTerminated(LineRuns(p, steps, hasZ))
  {
    AllTerminatedAppend([p.x.bytes, p.y.bytes], XYRuns(steps));
    if hasZ {
      AllTerminatedAppend([p.z.value.bytes], ZRuns(steps));
      AllTerminatedAppend([p.x.bytes, p.y.bytes] + XYRuns(steps), [p.z.value.bytes] + ZRuns(steps));
    } else {
      assert LineRuns(p, steps, hasZ) == [p.x.bytes, p.y.bytes] + XYRuns(steps) + [];
    }
  }

  /** The number of vertices, as the payload reader derives it from the number of runs. */
  lemma CountOf(count: nat, hasZ: bool, n: nat)
    requires if hasZ then count == 3 * n else count == 2 * n
    ensures (if hasZ then count / 3 else count / 2) == n
  {
  }

  lemma DecodePointsSame(cs: CoordinatesSystem, runs: seq<seq<byte>>, hasZ: bool, m: nat, n: nat, points: seq<Point>)
    requires m == n
    requires if hasZ then |runs| == 3 * m else |runs| == 2 * m
    requires DecodePoints(cs, runs, hasZ, m) == Ok(points)
    ensures DecodePoints(cs, runs, hasZ, n) == Ok(points)
  {
  }

  /** The points decoded with the vertex count the payload reader derives from the number of runs. */
  lemma DecodePointsCount(cs: CoordinatesSystem, runs: seq<seq<byte>>, hasZ: bool, points: seq<Point>)
    requires if hasZ then |runs| == 3 * |points| else |runs| == 2 * |points|
    requires DecodePoints(cs, runs, hasZ, |points|) == Ok(points)
    ensures var k := if hasZ then |runs| / 3 else |runs| / 2; k == |points| && DecodePoints(cs, runs, hasZ, k) == Ok(points)
  {
    CountOf(|runs|, hasZ, |points|);
    if hasZ {
      DecodePointsSame(cs, runs, true, |points|, |runs| / 3, points);
    } else {
      DecodePointsSame(cs, runs, false, |points|, |runs| / 2, points);
    }
  }

  /** A payload whose header carries the flags and whose runs decode to the points reads back as their polyline. */
  lemma LineFromBytesOf(cs: CoordinatesSystem, bytes: seq<byte>, hasZ: bool, points: seq<Point>, extents: Extents)
    requires |bytes| >= NbReservedBytes
    requires GetGeometryDimension(bytes[..NbReservedBytes]) == Ok((hasZ, false))
    requires var runs := GetEncodedValues(RemoveHeader(bytes));
      if hasZ then |runs| == 3 * |points| else |runs| == 2 * |points|
    requires |points| >= 2
    requires var runs := GetEncodedValues(RemoveHeader(bytes));
      DecodePoints(cs, runs, hasZ, if hasZ then |runs| / 3 else |runs| / 2) == Ok(points)
    requires ComputeExtents(points, hasZ, false) == Ok(extents)
    ensures LineFromBytes(cs, bytes) == Ok(LineString(points, hasZ, false, extents, bytes))
  {
    var runs := GetEncodedValues(RemoveHeader(bytes));
    LineFromRunsOf(cs, bytes, runs, hasZ, points, extents);
    assert LineFromBytes(cs, bytes) == LineFromRuns(cs, bytes, runs, hasZ, false);
  }

  /** Runs that decode as at least two vertices with their extents give the line of those vertices. */
  lemma LineFromRunsOf(cs: CoordinatesSystem, bytes: seq<byte>, runs: seq<seq<byte>>, hasZ: bool, points: seq<Point>,
                       extents: Extents)
    requires if hasZ then |runs| == 3 * |points| else |runs| == 2 * |points|
    requires |points| >= 2
    requires DecodePoints(cs, runs, hasZ, if hasZ then |runs| / 3 else |runs| / 2) == Ok(points)
    requires ComputeExtents(points, hasZ, false) == Ok(extents)
    ensures LineFromRuns(cs, bytes, runs, hasZ, false) == Ok(LineString(points, hasZ, false, extents, bytes))
  {
    CountAccepted(|runs|, hasZ, |points|);
  }

  /** A number of runs that is two or three per vertex, for at least two vertices, passes the reader's count checks. */
  lemma CountAccepted(n: nat, hasZ: bool, k: nat)
    requires if hasZ then n == 3 * k else n == 2 * k
    requires k >= 2
    ensures !hasZ ==> n >= 4 && n % 2 == 0
    ensures hasZ ==> n % 3 == 0
  {
  }

  /** What a polyline built from points holds: its flags, extents and payload layout. */
  lemma LineFacts(cs: CoordinatesSystem, points: seq<Point>, l: LineString)
    requires LineFromPoints(cs, points) == Ok(l)
    requires |GetBytesFromCount(cs, |LineBody(cs, points, l.hasZ).value|).value| <= 4
    ensures |points| >= 2 && l == LineString(points, l.hasZ, false, l.extents, l.bytes)
    ensures ComputeExtents(points, l.hasZ, false) == Ok(l.extents)
    ensures |l.bytes| >= NbReservedBytes
    ensures GetGeometryDimension(l.bytes[..NbReservedBytes]) == Ok((l.hasZ, false))
    ensures RemoveHeader(l.bytes) == LineBody(cs, points, l.hasZ).value
  {
  }

  /** The payload of an encodable polyline reads back as its points. */
  lemma RoundTripCore(cs: CoordinatesSystem, points: seq<Point>, hasZ: bool, extents: Extents, bytes: seq<byte>)
    requires Regular(cs) && PointBodiesFit(cs)
    requires |points| >= 2 && EncodedLine(cs, points, hasZ)
    requires ComputeExtents(points, hasZ, false) == Ok(extents)
    requires |bytes| >= NbReservedBytes
    requires GetGeometryDimension(bytes[..NbReservedBytes]) == Ok((hasZ, false))
    requires LineBody(cs, points, hasZ).Ok? && RemoveHeader(bytes) == LineBody(cs, points, hasZ).value
    ensures LineFromBytes(cs, bytes) == Ok(LineString(points, hasZ, false, extents, bytes))
  {
    EncodedLineFrom(cs, points, hasZ, 0);
    var steps := BuildSteps(cs, points, hasZ, 0);
    EncodedFacts(cs, points[0]);
    VertexFacts(cs, points[0], hasZ);
    LineBodyOf(cs, points, hasZ, steps);
    var runs := LineRuns(points[0], steps, hasZ);
    LineRunsTerminated(points[0], steps, hasZ);
    SplitOfJoin(runs);
    DecodePointsOf(cs, points, hasZ, steps);
    DecodePointsCount(cs, runs, hasZ, points);
    LineFromBytesOf(cs, bytes, hasZ, points, extents);
  }

  /**
   * A polyline built from encodable points whose steps are storable, with a
   * body whose length fits a four-byte run, is read back from its own payload
   * as the same polyline.
   */
  lemma LineBytesRoundTrip(cs: CoordinatesSystem, points: seq<Point>, l: LineString)
    requires Regular(cs) && PointBodiesFit(cs)
    requires LineFromPoints(cs, points) == Ok(l)
    requires EncodedLine(cs, points, l.hasZ)
    requires |GetBytesFromCount(cs, |LineBody(cs, points, l.hasZ).value|).value| <= 4
    ensures LineFromBytes(cs, l.bytes) == Ok(l)
  {
    LineFacts(cs, points, l);
    RoundTripCore(cs, points, l.hasZ, l.extents, l.bytes);
  }

  /**
   * The M getters as written, on a polyline with Z (which never has M): they
   * answer 0 instead of refusing, while the getters that check the M flag
   * refuse.
   */
  lemma MeasureOfZLine(cs: CoordinatesSystem, points: seq<Point>, l: LineString)
    requires LineFromPoints(cs, points) == Ok(l) && l.hasZ
    ensures LineMinM(l) == Ok(0) && LineMaxM(l) == Ok(0)
    ensures LineMinMChecked(l) == Err(ArgumentException) && LineMaxMChecked(l) == Err(ArgumentException)
  {
  }
}
