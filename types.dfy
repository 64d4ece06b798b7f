/**
 * Values shared by the collision stage: ground-plane vectors, the actor and
 * waypoint records the stage reads from the localization frame, the tuning
 * constants, and the geometry library the stage calls into.
 */
module Types {

  datatype Option<+T> = None | Some(value: T)

  /** Tuning constants of the collision stage (distances in metres, speeds in m/s). */
  const SearchRadius: real := 20.0
  const VerticalOverlapThreshold: real := 2.0
  const ZeroArea: real := 0.0001
  const BoundaryExtensionMinimum: real := 1.5
  const ExtensionSquarePoint: real := 7.0
  const TimeHorizon: real := 0.5
  const HighwaySpeed: real := 50.0 / 3.6
  const HighwayTimeHorizon: real := 5.0
  /** Seconds between two scans of the world for actors the traffic manager does not drive. */
  const UnregisteredScanInterval: real := 0.5

  /** A location or a vector of the simulator's 3D geometry. */
  datatype Vec3 = Vec3(x: real, y: real, z: real)

  function Add(a: Vec3, b: Vec3): Vec3 {
    Vec3(a.x + b.x, a.y + b.y, a.z + b.z)
  }

  function Sub(a: Vec3, b: Vec3): Vec3 {
    Vec3(a.x - b.x, a.y - b.y, a.z - b.z)
  }

  /** `v * k`: every component multiplied by the scalar. */
  function Scale(v: Vec3, k: real): Vec3 {
    Vec3(v.x * k, v.y * k, v.z * k)
  }

  function Dot(a: Vec3, b: Vec3): real {
    a.x * b.x + a.y * b.y + a.z * b.z
  }

  function SquaredLength(v: Vec3): real {
    Dot(v, v)
  }

  /** The squared length of the vector's ground-plane part. */
  function PlanarSquaredLength(v: Vec3): real {
    v.x * v.x + v.y * v.y
  }

  function DistanceSquared(a: Vec3, b: Vec3): real {
    (a.x - b.x) * (a.x - b.x) + (a.y - b.y) * (a.y - b.y) + (a.z - b.z) * (a.z - b.z)
  }

  function Abs(r: real): real {
    if r < 0.0 then -r else r
  }

  type ActorId = nat

  /**
   * What the stage reads through an actor handle: its id, location,
   * velocity, forward vector of its transform and bounding-box half extents.
   */
  datatype Actor = Actor(id: ActorId, location: Vec3, velocity: Vec3, forward: Vec3, extent: Vec3)

  /** A waypoint of a vehicle's path buffer: its location and forward vector. */
  datatype Waypoint = Waypoint(location: Vec3, forward: Vec3)

  /** One entry of the localization frame: a managed vehicle and its path buffer. */
  datatype LocalizationData = LocalizationData(actor: Actor, buffer: seq<Waypoint>)

  /** A vertex of a ground-plane polygon. */
  datatype Point2 = Point2(x: real, y: real)

  /** A polygon ring, as handed to the geometry library. */
  type Polygon = seq<Point2>

  /**
   * The foreign computational geometry the stage calls: square root,
   * polygon intersection (a list of pieces), polygon area and the
   * distance between two polygons.
   */
  datatype GeometryLib = GeometryLib(
    sqrt: real -> real,
    intersection: (Polygon, Polygon) -> seq<Polygon>,
    area: Polygon -> real,
    distance: (Polygon, Polygon) -> real)

  /** `sqrt` is the non-negative square root on the non-negative reals. */
  ghost predicate IsSqrt(sqrt: real -> real) {
    forall x: real :: 0.0 <= x ==> 0.0 <= sqrt(x) && sqrt(x) * sqrt(x) == x
  }

  ghost predicate ValidLib(lib: GeometryLib) {
    IsSqrt(lib.sqrt)
  }

  lemma ProductPositive(x: real, y: real)
    requires 0.0 < x && 0.0 < y
    ensures 0.0 < x * y
  {
  }

  lemma SquareStrictlyMonotone(a: real, b: real)
    requires 0.0 <= a < b
    ensures a * a < b * b
  {
    assert b * b - a * a == (b - a) * (b + a);
    ProductPositive(b - a, b + a);
  }

  /** The square root is monotone. */
  lemma SqrtMonotone(sqrt: real -> real, x: real, y: real)
    requires IsSqrt(sqrt)
    requires 0.0 <= x <= y
    ensures sqrt(x) <= sqrt(y)
  {
    var a, b := sqrt(x), sqrt(y);
    assert 0.0 <= a && a * a == x;
    assert 0.0 <= b && b * b == y;
    if a > b {
      SquareStrictlyMonotone(b, a);
      assert false;
    }
  }

  /** The square root of a positive number is positive. */
  lemma SqrtPositive(sqrt: real -> real, x: real)
    requires IsSqrt(sqrt)
    requires 0.0 < x
    ensures 0.0 < sqrt(x)
  {
    assert sqrt(x) * sqrt(x) == x;
  }

  /** The square root lies below any non-negative bound whose square exceeds the argument. */
  lemma SqrtBelow(sqrt: real -> real, x: real, bound: real)
    requires IsSqrt(sqrt)
    requires 0.0 <= x && 0.0 <= bound && x <= bound * bound
    ensures sqrt(x) <= bound
  {
    var a := sqrt(x);
    assert 0.0 <= a && a * a == x;
    if a > bound {
      SquareStrictlyMonotone(bound, a);
      assert false;
    }
  }

  lemma SquaredLengthNonNegative(v: Vec3)
    ensures 0.0 <= SquaredLength(v)
  {
  }

  /** `v.Length()`: the Euclidean norm, the non-negative number whose square is the squared length. */
  function Length(lib: GeometryLib, v: Vec3): (r: real)
    requires ValidLib(lib)
    ensures 0.0 <= r && r * r == SquaredLength(v)
  {
    SquaredLengthNonNegative(v);
    lib.sqrt(SquaredLength(v))
  }

  /** Dividing a vector of positive length by its length gives a vector of length one pointing the same way. */
  lemma ScaledToUnitLength(lib: GeometryLib, v: Vec3)
    requires ValidLib(lib)
    requires SquaredLength(v) > 0.0
    ensures var len := Length(lib, v);
            && 0.0 < len
            && SquaredLength(Scale(v, 1.0 / len)) == 1.0
            && 0.0 < Dot(Scale(v, 1.0 / len), v)
            && Dot(Scale(v, 1.0 / len), v) == len
  {
    var len := Length(lib, v);
    SqrtPositive(lib.sqrt, SquaredLength(v));
    var k := 1.0 / len;
    assert k * k * SquaredLength(v) == 1.0 by {
      assert k * len == 1.0;
      calc {
        k * k * SquaredLength(v);
        k * k * (len * len);
        (k * len) * (k * len);
      }
    }
    assert SquaredLength(Scale(v, k)) == k * k * SquaredLength(v);
    assert Dot(Scale(v, k), v) == k * SquaredLength(v);
    ProductPositive(k, SquaredLength(v));
    assert k * SquaredLength(v) == len by {
      assert k * SquaredLength(v) == (k * len) * len;
    }
  }

  /**
   * `v.MakeUnitVector()`: the vector divided by its length. A unit vector
   * whose projection on `v` is the whole length of `v` is `v / |v|` itself.
   */
  function MakeUnitVector(lib: GeometryLib, v: Vec3): (u: Vec3)
    requires ValidLib(lib)
    requires SquaredLength(v) > 0.0
    ensures SquaredLength(u) == 1.0
    ensures 0.0 < Dot(u, v)
    ensures Dot(u, v) == Length(lib, v)
  {
    SqrtPositive(lib.sqrt, SquaredLength(v));
    ScaledToUnitLength(lib, v);
    Scale(v, 1.0 / Length(lib, v))
  }
}
