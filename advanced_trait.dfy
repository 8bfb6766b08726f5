/** Operator overloading through `std::ops::Add`: a 2-D point added
    componentwise, and a length in millimetres to which a length in metres
    is added. Every `i32` operation must stay in range (a debug build panics
    otherwise), so each addition states that as its precondition. */
module AdvancedTrait {
  import opened Common

  datatype Point = Point(x: i32, y: i32)

  /** A length in millimetres (the source spells the type `Millmeters`). */
  datatype Millimeters = Millimeters(mm: i32)

  datatype Meters = Meters(m: i32)

  predicate CanAddPoints(p: Point, q: Point) {
    InI32(p.x as int + q.x as int) && InI32(p.y as int + q.y as int)
  }

  /** `impl Add for Point`. */
  function AddPoints(p: Point, q: Point): (r: Point)
    requires CanAddPoints(p, q)
    ensures r.x as int == p.x as int + q.x as int
    ensures r.y as int == p.y as int + q.y as int
  {
    Point(p.x + q.x, p.y + q.y)
  }

  /** `impl Add<Meters> for Millimeters`: the metres are first scaled by
      1000 (an `i32` multiplication that must itself fit), then added. */
  predicate CanAddMeters(a: Millimeters, b: Meters) {
    InI32(b.m as int * 1000) && InI32(a.mm as int + b.m as int * 1000)
  }

  function AddMeters(a: Millimeters, b: Meters): (r: Millimeters)
    requires CanAddMeters(a, b)
    ensures r.mm as int == a.mm as int + 1000 * b.m as int
  {
    Millimeters(a.mm + b.m * 1000)
  }

  /** The two assertions of the program's `main`. */
  lemma MainAssertions()
    ensures AddPoints(Point(1, 1), Point(2, 2)) == Point(3, 3)
    ensures AddMeters(Millimeters(1), Meters(1)) == Millimeters(1001)
  {
  }

  /** Point addition is commutative and has the origin as identity. */
  lemma AddPointsCommutes(p: Point, q: Point)
    requires CanAddPoints(p, q)
    ensures CanAddPoints(q, p) && AddPoints(p, q) == AddPoints(q, p)
  {
  }

  lemma OriginIsIdentity(p: Point)
    ensures CanAddPoints(p, Point(0, 0)) && AddPoints(p, Point(0, 0)) == p
    ensures CanAddPoints(Point(0, 0), p) && AddPoints(Point(0, 0), p) == p
  {
  }

  /** Adding metres in two steps is the same as adding their sum at once:
      the conversion factor is applied consistently. */
  lemma AddMetersInSteps(a: Millimeters, b: Meters, c: Meters)
    requires CanAddMeters(a, b) && CanAddMeters(AddMeters(a, b), c)
    requires InI32(b.m as int + c.m as int)
    requires CanAddMeters(a, Meters(b.m + c.m))
    ensures AddMeters(AddMeters(a, b), c) == AddMeters(a, Meters(b.m + c.m))
  {
  }
}
