/** Coordinates and the great-circle distance between them.

    The source uses the `haversine` library in metres, a floating-point
    computation that is not part of this model.  Each operation that needs a
    distance takes it as a parameter `d`, and states only the properties of a
    distance that it relies on. */
module Geo {

  /** (latitude, longitude), as the source passes them to `haversine`. */
  type Point = (real, real)

  /** A distance in metres between two points. */
  type Distance = (Point, Point) -> real

  /** A distance is never negative. */
  ghost predicate NonNegative(d: Distance)
  {
    forall a: Point, b: Point :: d(a, b) >= 0.0
  }

  /** The distance does not depend on the order of its arguments. */
  ghost predicate Symmetric(d: Distance)
  {
    forall a: Point, b: Point :: d(a, b) == d(b, a)
  }

  /** A point is at distance zero from itself. */
  ghost predicate ZeroOnSelf(d: Distance)
  {
    forall a: Point :: d(a, a) == 0.0
  }
}
