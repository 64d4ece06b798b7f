/**
 * The footprints the collision stage compares: the oriented bounding
 * rectangle of a vehicle and its geodesic boundary, the rectangle extended
 * along the vehicle's path buffer for a speed-dependent length.
 */
module Boundary {
  import opened Types

  /** The forward vector of the actor's transform with its height dropped. */
  function FlatHeading(actor: Actor): Vec3 {
    Vec3(actor.forward.x, actor.forward.y, 0.0)
  }

  /** The ground-plane perpendicular `(-h.y, h.x, 0)` of a heading. */
  function Perpendicular(h: Vec3): Vec3 {
    Vec3(-h.y, h.x, 0.0)
  }

  /** The perpendicular is orthogonal to the heading, flat, and as long as the heading's ground-plane part. */
  lemma PerpendicularIsOrthogonal(h: Vec3)
    ensures Dot(Perpendicular(h), h) == 0.0 && Perpendicular(h).z == 0.0
    ensures SquaredLength(Perpendicular(h)) == PlanarSquaredLength(h)
  {
  }

  /** Half the vehicle's length, along its heading. */
  function LengthAxis(actor: Actor): Vec3 {
    Scale(FlatHeading(actor), actor.extent.x)
  }

  /** Half the vehicle's width, along the perpendicular of its heading. */
  function WidthAxis(actor: Actor): Vec3 {
    Scale(Perpendicular(FlatHeading(actor)), actor.extent.y)
  }

  /**
   * The four corners of the vehicle in top view, clockwise in the
   * simulator's left-handed frame: front-right, rear-right, rear-left,
   * front-left.
   */
  function GetBoundary(actor: Actor): (r: seq<Vec3>)
    ensures |r| == 4
    ensures Add(r[0], r[2]) == Scale(actor.location, 2.0) && Add(r[1], r[3]) == Scale(actor.location, 2.0)
  {
    var x := LengthAxis(actor);
    var y := WidthAxis(actor);
    var loc := actor.location;
    [ Add(loc, Sub(x, y)),
      Add(loc, Sub(Scale(x, -1.0), y)),
      Add(loc, Add(Scale(x, -1.0), y)),
      Add(loc, Add(x, y)) ]
  }

  /**
   * Opposite sides of the corner list are parallel and equal: front and rear
   * sides run along the width axis, the two long sides along the heading,
   * each twice the half extent; all corners are at the actor's height.
   */
  lemma BoundarySides(actor: Actor)
    ensures var r := GetBoundary(actor);
            && Sub(r[0], r[1]) == Scale(LengthAxis(actor), 2.0) && Sub(r[3], r[2]) == Scale(LengthAxis(actor), 2.0)
            && Sub(r[3], r[0]) == Scale(WidthAxis(actor), 2.0) && Sub(r[2], r[1]) == Scale(WidthAxis(actor), 2.0)
            && forall i :: 0 <= i < 4 ==> r[i].z == actor.location.z
  {
  }

  /** Scaling either vector scales their dot product. */
  lemma DotOfScaled(u: Vec3, v: Vec3, a: real, b: real)
    ensures Dot(Scale(u, a), Scale(v, b)) == a * b * Dot(u, v)
  {
    calc {
      Dot(Scale(u, a), Scale(v, b));
      (u.x * a) * (v.x * b) + (u.y * a) * (v.y * b) + (u.z * a) * (v.z * b);
      a * b * (u.x * v.x) + a * b * (u.y * v.y) + a * b * (u.z * v.z);
    }
  }

  /** The two axes of the bounding rectangle are orthogonal, so its corners form a rectangle. */
  lemma BoundaryIsRectangle(actor: Actor)
    ensures Dot(LengthAxis(actor), WidthAxis(actor)) == 0.0
    ensures var r := GetBoundary(actor); Dot(Sub(r[0], r[1]), Sub(r[3], r[0])) == 0.0
  {
    var h := FlatHeading(actor);
    PerpendicularIsOrthogonal(h);
    DotOfScaled(h, Perpendicular(h), actor.extent.x, actor.extent.y);
    var r := GetBoundary(actor);
    BoundarySides(actor);
    DotOfScaled(LengthAxis(actor), WidthAxis(actor), 2.0, 2.0);
  }

  function Max(a: real, b: real): real {
    if a < b then b else a
  }

  /** The extension length the additive formula gives below highway speed. */
  function LowSpeedExtension(lib: GeometryLib, velocity: real): (r: real)
    requires ValidLib(lib) && 0.0 <= velocity
    ensures 3.0 * BoundaryExtensionMinimum <= r
  {
    Max(lib.sqrt(ExtensionSquarePoint * velocity), BoundaryExtensionMinimum)
      + Max(velocity * TimeHorizon, BoundaryExtensionMinimum)
      + BoundaryExtensionMinimum
  }

  /** How far along its path a vehicle moving at `velocity` extends its footprint. */
  function ExtensionLength(lib: GeometryLib, velocity: real): (r: real)
    requires ValidLib(lib) && 0.0 <= velocity
    ensures velocity > HighwaySpeed ==> r == HighwayTimeHorizon * velocity
    ensures velocity <= HighwaySpeed ==> r == LowSpeedExtension(lib, velocity)
  {
    var extension := LowSpeedExtension(lib, velocity);
    if velocity > HighwaySpeed then HighwayTimeHorizon * velocity else extension
  }

  /** Below highway speed the extension is at least 4.5 and grows with speed. */
  lemma {:induction false} LowSpeedExtensionMonotone(lib: GeometryLib, v1: real, v2: real)
    requires ValidLib(lib)
    requires 0.0 <= v1 <= v2
    ensures 4.5 <= LowSpeedExtension(lib, v1) <= LowSpeedExtension(lib, v2)
  {
    SqrtMonotone(lib.sqrt, ExtensionSquarePoint * v1, ExtensionSquarePoint * v2);
  }

  /**
   * The extension length never shrinks as speed grows, including across the
   * switch to the highway horizon.
   */
  lemma {:induction false} ExtensionLengthMonotone(lib: GeometryLib, v1: real, v2: real)
    requires ValidLib(lib)
    requires 0.0 <= v1 <= v2
    ensures ExtensionLength(lib, v1) <= ExtensionLength(lib, v2)
  {
    if v2 <= HighwaySpeed {
      LowSpeedExtensionMonotone(lib, v1, v2);
    } else if v1 <= HighwaySpeed {
      LowSpeedExtensionMonotone(lib, v1, HighwaySpeed);
      SqrtBelow(lib.sqrt, ExtensionSquarePoint * HighwaySpeed, 10.0);
      assert LowSpeedExtension(lib, HighwaySpeed) <= 10.0 + HighwaySpeed * TimeHorizon + 2.0 * BoundaryExtensionMinimum;
    }
  }

  /** A waypoint whose forward vector has a non-zero ground-plane part. */
  predicate HasPlanarHeading(w: Waypoint) {
    w.forward.x != 0.0 || w.forward.y != 0.0
  }

  /** A heading with a non-zero ground-plane component has a positive ground-plane length. */
  lemma PlanarHeadingPositive(h: Vec3)
    requires h.x != 0.0 || h.y != 0.0
    ensures PlanarSquaredLength(h) > 0.0
  {
    if h.x != 0.0 {
      SquareStrictlyMonotone(0.0, Abs(h.x));
      assert h.x * h.x == Abs(h.x) * Abs(h.x);
    } else {
      SquareStrictlyMonotone(0.0, Abs(h.y));
      assert h.y * h.y == Abs(h.y) * Abs(h.y);
    }
  }

  /** A path buffer the walk can read: non-empty, every heading usable. */
  predicate WellFormedBuffer(buffer: seq<Waypoint>) {
    |buffer| > 0 && forall i :: 0 <= i < |buffer| ==> HasPlanarHeading(buffer[i])
  }

  predicate FrameWellFormed(frame: seq<LocalizationData>) {
    forall i :: 0 <= i < |frame| ==> WellFormedBuffer(frame[i].buffer)
  }

  /** The offset, `width` long and perpendicular to the waypoint's heading, from the path to its left edge. */
  function PathOffset(lib: GeometryLib, w: Waypoint, width: real): (r: Vec3)
    requires ValidLib(lib) && HasPlanarHeading(w)
    ensures r.z == 0.0
  {
    PerpendicularIsOrthogonal(w.forward);
    PlanarHeadingPositive(w.forward);
    Scale(MakeUnitVector(lib, Perpendicular(w.forward)), width)
  }

  /** The point `width` to the left of a waypoint, at the waypoint's height. */
  function LeftPoint(lib: GeometryLib, w: Waypoint, width: real): (p: Vec3)
    requires ValidLib(lib) && HasPlanarHeading(w)
    ensures p.z == w.location.z
  {
    Add(w.location, PathOffset(lib, w, width))
  }

  /** The point `width` to the right of a waypoint, at the waypoint's height. */
  function RightPoint(lib: GeometryLib, w: Waypoint, width: real): (p: Vec3)
    requires ValidLib(lib) && HasPlanarHeading(w)
    ensures p.z == w.location.z
  {
    Add(w.location, Scale(PathOffset(lib, w, width), -1.0))
  }

  /**
   * The left and right points straddle the waypoint: they are mirror images
   * through it, each `width` away from it, across the waypoint's heading,
   * and the left one lies on the side the perpendicular `(-h.y, h.x, 0)`
   * points to.
   */
  lemma OffsetPointsStraddleWaypoint(lib: GeometryLib, w: Waypoint, width: real)
    requires ValidLib(lib) && HasPlanarHeading(w)
    ensures Add(LeftPoint(lib, w, width), RightPoint(lib, w, width)) == Scale(w.location, 2.0)
    ensures DistanceSquared(LeftPoint(lib, w, width), w.location) == width * width
    ensures DistanceSquared(RightPoint(lib, w, width), w.location) == width * width
    ensures Dot(Sub(LeftPoint(lib, w, width), w.location), w.forward) == 0.0
    ensures Dot(Sub(LeftPoint(lib, w, width), w.location), Perpendicular(w.forward))
            == width * Length(lib, Perpendicular(w.forward))
  {
    var p := Perpendicular(w.forward);
    PerpendicularIsOrthogonal(w.forward);
    PlanarHeadingPositive(w.forward);
    var u := MakeUnitVector(lib, p);
    var k := 1.0 / Length(lib, p);
    assert u == Scale(p, k);
    var o := PathOffset(lib, w, width);
    assert Sub(LeftPoint(lib, w, width), w.location) == o;
    assert Sub(RightPoint(lib, w, width), w.location) == Scale(o, -1.0);
    assert SquaredLength(o) == width * width * SquaredLength(u);
    assert SquaredLength(Scale(o, -1.0)) == SquaredLength(o);
    assert Dot(o, w.forward) == k * width * Dot(p, w.forward);
    assert Dot(u, p) == Length(lib, p);
    assert Dot(o, p) == width * Dot(u, p);
  }

  /**
   * The waypoint the walk stands on at its `j`-th step. The walk starts on
   * the first waypoint and moves to waypoint `j` only after step `j`, so a
   * walk of two steps or more visits the first waypoint twice, and a walk
   * over a whole buffer of two waypoints or more never visits the last one.
   */
  function WalkWaypoint(buffer: seq<Waypoint>, j: nat): (w: Waypoint)
    requires 0 < |buffer| && j <= |buffer|
    ensures w in buffer
    ensures j <= 1 ==> w == buffer[0]
    ensures 1 <= j ==> w == buffer[j - 1]
  {
    if j == 0 then buffer[0] else buffer[j - 1]
  }

  /** Whether the walk's `j`-th waypoint is still closer to the path's start than the extension length. */
  predicate InsideExtension(buffer: seq<Waypoint>, ext: real, j: nat)
    requires 0 < |buffer| && j <= |buffer|
  {
    DistanceSquared(buffer[0].location, WalkWaypoint(buffer, j).location) < ext * ext
  }

  /**
   * The number of steps the walk takes from step `j` on: it stops at the
   * first step whose waypoint reaches the extension length, or when the
   * buffer is exhausted.
   */
  function StopIndex(buffer: seq<Waypoint>, ext: real, j: nat): (k: nat)
    requires 0 < |buffer| && j <= |buffer|
    ensures j <= k <= |buffer|
    decreases |buffer| - j
  {
    if j == |buffer| || !InsideExtension(buffer, ext, j) then j else StopIndex(buffer, ext, j + 1)
  }

  /**
   * The walk stops at its first exit: every step before the stop index is
   * still inside the extension length, and the stop index is either the end
   * of the buffer or a step that is not.
   */
  lemma {:induction false} StopIndexIsFirstExit(buffer: seq<Waypoint>, ext: real, j: nat)
    requires 0 < |buffer| && j <= |buffer|
    ensures forall m :: j <= m < StopIndex(buffer, ext, j) ==> InsideExtension(buffer, ext, m)
    ensures StopIndex(buffer, ext, j) == |buffer| || !InsideExtension(buffer, ext, StopIndex(buffer, ext, j))
    decreases |buffer| - j
  {
    if j < |buffer| && InsideExtension(buffer, ext, j) {
      StopIndexIsFirstExit(buffer, ext, j + 1);
    }
  }

  /** The left points of the walk's first `n` steps. */
  function LeftEdge(lib: GeometryLib, buffer: seq<Waypoint>, width: real, n: nat): (r: seq<Vec3>)
    requires ValidLib(lib) && WellFormedBuffer(buffer) && n <= |buffer|
    ensures |r| == n
  {
    seq(n, j requires 0 <= j < n => LeftPoint(lib, WalkWaypoint(buffer, j), width))
  }

  /** The right points of the walk's first `n` steps. */
  function RightEdge(lib: GeometryLib, buffer: seq<Waypoint>, width: real, n: nat): (r: seq<Vec3>)
    requires ValidLib(lib) && WellFormedBuffer(buffer) && n <= |buffer|
    ensures |r| == n
  {
    seq(n, j requires 0 <= j < n => RightPoint(lib, WalkWaypoint(buffer, j), width))
  }

  /** One more step of the walk appends one point to each edge. */
  lemma EdgesGrow(lib: GeometryLib, buffer: seq<Waypoint>, width: real, n: nat)
    requires ValidLib(lib) && WellFormedBuffer(buffer) && n < |buffer|
    ensures LeftEdge(lib, buffer, width, n + 1) == LeftEdge(lib, buffer, width, n) + [LeftPoint(lib, WalkWaypoint(buffer, n), width)]
    ensures RightEdge(lib, buffer, width, n + 1) == RightEdge(lib, buffer, width, n) + [RightPoint(lib, WalkWaypoint(buffer, n), width)]
  {
  }

  function Reverse<T>(s: seq<T>): seq<T> {
    seq(|s|, i requires 0 <= i < |s| => s[|s| - 1 - i])
  }

  /**
   * In `Reverse(right) + middle + left` with edges of equal length `k`, the
   * middle starts at `k`, the `j`-th left point sits `j` places after the
   * middle and the `j`-th right point `j` places before it.
   */
  lemma SandwichLayout<T>(right: seq<T>, middle: seq<T>, left: seq<T>)
    requires |right| == |left|
    ensures var k, g := |left|, Reverse(right) + middle + left;
            && |g| == 2 * k + |middle|
            && g[k..k + |middle|] == middle
            && forall j :: 0 <= j < k ==> g[k + |middle| + j] == left[j] && g[k - 1 - j] == right[j]
  {
    var k, g := |left|, Reverse(right) + middle + left;
    assert g[k..k + |middle|] == middle;
    forall j | 0 <= j < k
      ensures g[k + |middle| + j] == left[j] && g[k - 1 - j] == right[j]
    {
      assert g[k - 1 - j] == Reverse(right)[k - 1 - j];
    }
  }

  /**
   * The geodesic boundary of an actor. An actor absent from `idToIndex` is
   * not driven by the traffic manager and keeps its bounding rectangle. For a
   * managed one the path buffer is read at the index `idToIndex` records;
   * when that index lies outside the frame the lookup throws, which is `None`.
   */
  function GeodesicBoundary(lib: GeometryLib, idToIndex: map<ActorId, nat>, frame: seq<LocalizationData>,
                            actor: Actor): (g: Option<seq<Vec3>>)
    requires ValidLib(lib) && FrameWellFormed(frame)
    ensures g.None? <==> actor.id in idToIndex && idToIndex[actor.id] >= |frame|
    ensures actor.id !in idToIndex ==> g == Some(GetBoundary(actor))
    ensures g.Some? ==> 4 <= |g.value| && |g.value| % 2 == 0
  {
    var bbox := GetBoundary(actor);
    if actor.id in idToIndex then
      var index := idToIndex[actor.id];
      if index < |frame| then
        var buffer := frame[index].buffer;
        var k := StopIndex(buffer, ExtensionLength(lib, Length(lib, actor.velocity)), 0);
        var width := actor.extent.y;
        Some(Reverse(RightEdge(lib, buffer, width, k)) + bbox + LeftEdge(lib, buffer, width, k))
      else
        None
    else
      Some(bbox)
  }

  /**
   * Layout of the geodesic boundary: the right edge from farthest to
   * nearest, the four corners, then the left edge from nearest to farthest;
   * both edges have one point per step of the walk.
   */
  lemma GeodesicBoundaryLayout(lib: GeometryLib, idToIndex: map<ActorId, nat>, frame: seq<LocalizationData>,
                               actor: Actor)
    requires ValidLib(lib) && FrameWellFormed(frame)
    requires actor.id in idToIndex && idToIndex[actor.id] < |frame|
    ensures var buffer := frame[idToIndex[actor.id]].buffer;
            var width := actor.extent.y;
            var k := StopIndex(buffer, ExtensionLength(lib, Length(lib, actor.velocity)), 0);
            var g := GeodesicBoundary(lib, idToIndex, frame, actor);
            && WellFormedBuffer(buffer)
            && g.Some? && k <= |buffer| && |g.value| == 2 * k + 4
            && g.value[k..k + 4] == GetBoundary(actor)
            && (forall j :: 0 <= j < k ==>
                  && g.value[k + 4 + j] == LeftPoint(lib, WalkWaypoint(buffer, j), width)
                  && g.value[k - 1 - j] == RightPoint(lib, WalkWaypoint(buffer, j), width))
  {
    var buffer := frame[idToIndex[actor.id]].buffer;
    assert WellFormedBuffer(buffer);
    var width := actor.extent.y;
    var k := StopIndex(buffer, ExtensionLength(lib, Length(lib, actor.velocity)), 0);
    assert GeodesicBoundary(lib, idToIndex, frame, actor).value ==
           Reverse(RightEdge(lib, buffer, width, k)) + GetBoundary(actor) + LeftEdge(lib, buffer, width, k);
    ManagedLayout(lib, buffer, width, GetBoundary(actor), k);
  }

  /** The layout of `Reverse(right edge) + middle + left edge` after `k` steps of the walk. */
  lemma ManagedLayout(lib: GeometryLib, buffer: seq<Waypoint>, width: real, middle: seq<Vec3>, k: nat)
    requires ValidLib(lib) && WellFormedBuffer(buffer) && k <= |buffer|
    ensures var g := Reverse(RightEdge(lib, buffer, width, k)) + middle + LeftEdge(lib, buffer, width, k);
            && |g| == 2 * k + |middle|
            && g[k..k + |middle|] == middle
            && (forall j :: 0 <= j < k ==>
                  && g[k + |middle| + j] == LeftPoint(lib, WalkWaypoint(buffer, j), width)
                  && g[k - 1 - j] == RightPoint(lib, WalkWaypoint(buffer, j), width))
  {
    var right := RightEdge(lib, buffer, width, k);
    var left := LeftEdge(lib, buffer, width, k);
    SandwichLayout(right, middle, left);
    forall j | 0 <= j < k
      ensures left[j] == LeftPoint(lib, WalkWaypoint(buffer, j), width)
      ensures right[j] == RightPoint(lib, WalkWaypoint(buffer, j), width)
    {
    }
  }

  /**
   * The walk of `GetGeodesicBoundary` along a path buffer: from the first
   * waypoint on, one left and one right point per step, until the waypoint
   * reached is `ext` or more from the start or the buffer's size is reached.
   */
  method WalkPath(lib: GeometryLib, buffer: seq<Waypoint>, ext: real, width: real)
      returns (left: seq<Vec3>, right: seq<Vec3>)
    requires ValidLib(lib) && WellFormedBuffer(buffer)
    ensures left == LeftEdge(lib, buffer, width, StopIndex(buffer, ext, 0))
    ensures right == RightEdge(lib, buffer, width, StopIndex(buffer, ext, 0))
  {
    left, right := [], [];
    var boundaryStart := buffer[0];
    var boundaryEnd := buffer[0];
    ghost var k := StopIndex(buffer, ext, 0);
    var i := 0;
    while DistanceSquared(boundaryStart.location, boundaryEnd.location) < ext * ext && i < |buffer|
      invariant 0 <= i <= |buffer| && StopIndex(buffer, ext, i) == k
      invariant boundaryEnd == WalkWaypoint(buffer, i)
      invariant left == LeftEdge(lib, buffer, width, i)
      invariant right == RightEdge(lib, buffer, width, i)
      decreases |buffer| - i
    {
      EdgesGrow(lib, buffer, width, i);
      left := left + [LeftPoint(lib, boundaryEnd, width)];
      right := right + [RightPoint(lib, boundaryEnd, width)];
      boundaryEnd := buffer[i];
      i := i + 1;
    }
  }

  /**
   * `GetGeodesicBoundary`: for a managed actor, walks its path buffer for
   * the extension length its speed gives and joins the reversed right edge,
   * the bounding rectangle and the left edge; any other actor keeps its
   * bounding rectangle.
   */
  method GetGeodesicBoundary(lib: GeometryLib, idToIndex: map<ActorId, nat>, frame: seq<LocalizationData>,
                             actor: Actor) returns (r: Option<seq<Vec3>>)
    requires ValidLib(lib) && FrameWellFormed(frame)
    ensures r == GeodesicBoundary(lib, idToIndex, frame, actor)
  {
    var bbox := GetBoundary(actor);
    if actor.id !in idToIndex {
      return Some(bbox);
    }
    var velocity := Length(lib, actor.velocity);
    var ext := ExtensionLength(lib, velocity);
    var index := idToIndex[actor.id];
    if index >= |frame| {
      return None;
    }
    var buffer := frame[index].buffer;
    assert WellFormedBuffer(buffer);
    var left, right := WalkPath(lib, buffer, ext, actor.extent.y);
    r := Some(Reverse(right) + bbox + left);
  }
}
