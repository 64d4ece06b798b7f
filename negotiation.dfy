/**
 * The pairwise decision of the collision stage: whether a reference vehicle
 * must yield to another one. Both geodesic boundaries are projected to the
 * ground plane, tested for an overlap of positive area, and the vehicle whose
 * rectangle lies farther from the other's path has to yield.
 */
module Negotiation {
  import opened Types
  import opened Boundary

  /** The ground-plane projection of a location. */
  function Flatten(v: Vec3): Point2 {
    Point2(v.x, v.y)
  }

  /**
   * `GetPolygon`: the ring of a boundary in the ground plane, closed by
   * repeating its first point. Heights are dropped.
   */
  function GetPolygon(boundary: seq<Vec3>): (p: Polygon)
    requires |boundary| > 0
    ensures |p| == |boundary| + 1 && p[|boundary|] == p[0]
    ensures forall i :: 0 <= i < |boundary| ==> p[i] == Point2(boundary[i].x, boundary[i].y)
  {
    seq(|boundary|, i requires 0 <= i < |boundary| => Flatten(boundary[i])) + [Flatten(boundary[0])]
  }

  /** Two boundaries that agree in the ground plane give the same polygon, whatever their heights. */
  lemma PolygonIgnoresHeight(a: seq<Vec3>, b: seq<Vec3>)
    requires |a| == |b| > 0
    requires forall i :: 0 <= i < |a| ==> a[i].x == b[i].x && a[i].y == b[i].y
    ensures GetPolygon(a) == GetPolygon(b)
  {
    var p, q := GetPolygon(a), GetPolygon(b);
    assert |p| == |q|;
    forall i | 0 <= i < |p|
      ensures p[i] == q[i]
    {
      if i < |a| {
        assert p[i] == Point2(a[i].x, a[i].y);
      }
    }
  }

  /**
   * Two boundaries overlap when neither is empty and some piece of the
   * intersection of their polygons has an area above `ZeroArea`.
   */
  ghost predicate Overlap(lib: GeometryLib, a: seq<Vec3>, b: seq<Vec3>): (o: bool)
    ensures o ==> |a| > 0 && |b| > 0
  {
    && |a| > 0 && |b| > 0
    && exists piece :: piece in lib.intersection(GetPolygon(a), GetPolygon(b)) && lib.area(piece) > ZeroArea
  }

  /**
   * `CheckOverlap`: scans the pieces of the intersection in order and stops
   * at the first one whose area exceeds `ZeroArea`.
   */
  method CheckOverlap(lib: GeometryLib, a: seq<Vec3>, b: seq<Vec3>) returns (overlap: bool)
    ensures overlap == Overlap(lib, a, b)
  {
    overlap := false;
    if |a| > 0 && |b| > 0 {
      var output := lib.intersection(GetPolygon(a), GetPolygon(b));
      var i := 0;
      while i < |output| && !overlap
        invariant 0 <= i <= |output|
        invariant overlap <==> exists m :: 0 <= m < i && lib.area(output[m]) > ZeroArea
      {
        if lib.area(output[i]) > ZeroArea {
          overlap := true;
        }
        i := i + 1;
      }
    }
  }

  /** An actor whose recorded index lies outside the frame: reading its path buffer throws. */
  predicate Stale(idToIndex: map<ActorId, nat>, frame: seq<LocalizationData>, actor: Actor) {
    actor.id in idToIndex && idToIndex[actor.id] >= |frame|
  }

  /**
   * The outcome of `NegotiateCollision(reference, other)`: `Some(true)` when
   * the reference vehicle must yield, `Some(false)` when it need not, and
   * `None` when computing a geodesic boundary throws.
   */
  ghost function NegotiationOutcome(lib: GeometryLib, idToIndex: map<ActorId, nat>, frame: seq<LocalizationData>,
                             reference: Actor, other: Actor): (r: Option<bool>)
    requires ValidLib(lib) && FrameWellFormed(frame)
    ensures Abs(reference.location.z - other.location.z) >= VerticalOverlapThreshold ==> r == Some(false)
    ensures r.None? ==> Stale(idToIndex, frame, reference) || Stale(idToIndex, frame, other)
  {
    if Abs(reference.location.z - other.location.z) < VerticalOverlapThreshold then
      var referenceGeodesic := GeodesicBoundary(lib, idToIndex, frame, reference);
      var otherGeodesic := GeodesicBoundary(lib, idToIndex, frame, other);
      if referenceGeodesic.None? || otherGeodesic.None? then
        None
      else
        var overlap := Overlap(lib, referenceGeodesic.value, otherGeodesic.value);
        var referenceToOther := lib.distance(GetPolygon(GetBoundary(reference)), GetPolygon(otherGeodesic.value));
        var otherToReference := lib.distance(GetPolygon(GetBoundary(other)), GetPolygon(referenceGeodesic.value));
        Some(overlap && referenceToOther > otherToReference)
    else
      Some(false)
  }

  /**
   * `NegotiateCollision`: vehicles two metres or more apart in height never
   * conflict; otherwise the reference vehicle yields when the geodesic
   * boundaries overlap and its rectangle is strictly farther from the other's
   * path than the other's rectangle is from its own path.
   */
  method NegotiateCollision(lib: GeometryLib, idToIndex: map<ActorId, nat>, frame: seq<LocalizationData>,
                            reference: Actor, other: Actor) returns (r: Option<bool>)
    requires ValidLib(lib) && FrameWellFormed(frame)
    ensures r == NegotiationOutcome(lib, idToIndex, frame, reference, other)
  {
    var hazard := false;
    var referenceHeight := reference.location.z;
    var otherHeight := other.location.z;
    if Abs(referenceHeight - otherHeight) < VerticalOverlapThreshold {
      var referenceGeodesic := GetGeodesicBoundary(lib, idToIndex, frame, reference);
      if referenceGeodesic.None? {
        return None;
      }
      var otherGeodesic := GetGeodesicBoundary(lib, idToIndex, frame, other);
      if otherGeodesic.None? {
        return None;
      }
      var geodesicOverlap := CheckOverlap(lib, referenceGeodesic.value, otherGeodesic.value);
      var referenceGeodesicPolygon := GetPolygon(referenceGeodesic.value);
      var otherGeodesicPolygon := GetPolygon(otherGeodesic.value);
      var referencePolygon := GetPolygon(GetBoundary(reference));
      var otherPolygon := GetPolygon(GetBoundary(other));
      var referenceToOther := lib.distance(referencePolygon, otherGeodesicPolygon);
      var otherToReference := lib.distance(otherPolygon, referenceGeodesicPolygon);
      if geodesicOverlap && referenceToOther > otherToReference {
        hazard := true;
      }
    }
    return Some(hazard);
  }

  /** Vehicles at least `VerticalOverlapThreshold` apart in height (on different levels of a bridge, say) never conflict. */
  lemma VerticallySeparatedNeverYield(lib: GeometryLib, idToIndex: map<ActorId, nat>, frame: seq<LocalizationData>,
                                      reference: Actor, other: Actor)
    requires ValidLib(lib) && FrameWellFormed(frame)
    requires Abs(reference.location.z - other.location.z) >= VerticalOverlapThreshold
    ensures NegotiationOutcome(lib, idToIndex, frame, reference, other) == Some(false)
    ensures NegotiationOutcome(lib, idToIndex, frame, other, reference) == Some(false)
  {
    assert Abs(other.location.z - reference.location.z) == Abs(reference.location.z - other.location.z);
  }

  /**
   * Priority is decided one way: of two vehicles, at most one has to yield
   * to the other, since each decision compares the same two clearances in
   * opposite directions.
   */
  lemma AtMostOneYields(lib: GeometryLib, idToIndex: map<ActorId, nat>, frame: seq<LocalizationData>,
                        a: Actor, b: Actor)
    requires ValidLib(lib) && FrameWellFormed(frame)
    ensures !(NegotiationOutcome(lib, idToIndex, frame, a, b) == Some(true) &&
              NegotiationOutcome(lib, idToIndex, frame, b, a) == Some(true))
  {
    assert Abs(b.location.z - a.location.z) == Abs(a.location.z - b.location.z);
  }

  /**
   * When the two clearances are equal neither vehicle yields, whatever the
   * overlap: the strict comparison fails in both directions.
   */
  lemma TieNeitherYields(lib: GeometryLib, idToIndex: map<ActorId, nat>, frame: seq<LocalizationData>,
                         a: Actor, b: Actor)
    requires ValidLib(lib) && FrameWellFormed(frame)
    requires var ga, gb := GeodesicBoundary(lib, idToIndex, frame, a), GeodesicBoundary(lib, idToIndex, frame, b);
             ga.Some? && gb.Some? &&
             lib.distance(GetPolygon(GetBoundary(a)), GetPolygon(gb.value)) ==
             lib.distance(GetPolygon(GetBoundary(b)), GetPolygon(ga.value))
    ensures NegotiationOutcome(lib, idToIndex, frame, a, b) != Some(true)
    ensures NegotiationOutcome(lib, idToIndex, frame, b, a) != Some(true)
  {
  }

  /** A vehicle never has to yield to itself: both clearances are the same number. */
  lemma NeverYieldsToItself(lib: GeometryLib, idToIndex: map<ActorId, nat>, frame: seq<LocalizationData>, a: Actor)
    requires ValidLib(lib) && FrameWellFormed(frame)
    ensures NegotiationOutcome(lib, idToIndex, frame, a, a) != Some(true)
  {
  }

  /**
   * Yielding needs a real conflict: the two geodesic boundaries exist and
   * overlap, the vehicles are within the height threshold, and the
   * reference's rectangle is strictly farther from the other's path.
   */
  lemma YieldMeansOverlap(lib: GeometryLib, idToIndex: map<ActorId, nat>, frame: seq<LocalizationData>,
                          reference: Actor, other: Actor)
    requires ValidLib(lib) && FrameWellFormed(frame)
    requires NegotiationOutcome(lib, idToIndex, frame, reference, other) == Some(true)
    ensures Abs(reference.location.z - other.location.z) < VerticalOverlapThreshold
    ensures var g := GeodesicBoundary(lib, idToIndex, frame, reference);
            var h := GeodesicBoundary(lib, idToIndex, frame, other);
            && g.Some? && h.Some? && Overlap(lib, g.value, h.value)
            && lib.distance(GetPolygon(GetBoundary(reference)), GetPolygon(h.value))
               > lib.distance(GetPolygon(GetBoundary(other)), GetPolygon(g.value))
  {
  }

  /**
   * The negotiation throws exactly when the vehicles are close in height and
   * one of them has a recorded index outside the frame.
   */
  lemma NegotiationFailsOnStaleIndex(lib: GeometryLib, idToIndex: map<ActorId, nat>, frame: seq<LocalizationData>,
                                     reference: Actor, other: Actor)
    requires ValidLib(lib) && FrameWellFormed(frame)
    ensures NegotiationOutcome(lib, idToIndex, frame, reference, other).None? <==>
              Abs(reference.location.z - other.location.z) < VerticalOverlapThreshold &&
              (Stale(idToIndex, frame, reference) || Stale(idToIndex, frame, other))
  {
  }

  /**
   * An actor the traffic manager does not drive is judged by its bounding
   * rectangle alone: its geodesic boundary is its four corners.
   */
  lemma UnmanagedActorUsesRectangle(lib: GeometryLib, idToIndex: map<ActorId, nat>, frame: seq<LocalizationData>,
                                    reference: Actor, other: Actor)
    requires ValidLib(lib) && FrameWellFormed(frame)
    requires other.id !in idToIndex && !Stale(idToIndex, frame, reference)
    requires Abs(reference.location.z - other.location.z) < VerticalOverlapThreshold
    ensures var g := GeodesicBoundary(lib, idToIndex, frame, reference);
            && g.Some?
            && NegotiationOutcome(lib, idToIndex, frame, reference, other) ==
                 Some(Overlap(lib, g.value, GetBoundary(other)) &&
                      lib.distance(GetPolygon(GetBoundary(reference)), GetPolygon(GetBoundary(other)))
                      > lib.distance(GetPolygon(GetBoundary(other)), GetPolygon(g.value)))
  {
  }
}
