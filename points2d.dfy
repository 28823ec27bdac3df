/**
 * Point2D: a point (or a vector) of the plane. The C++ type stores two
 * floats; here the coordinates are exact reals, so the partition lemmas
 * about quadrants hold without rounding.
 */
module Points2D {

  /** The two-argument constructor; `x` and `y` are the getters. */
  datatype Point2D = Point2D(x: real, y: real)

  /** The default-constructed point: the neutral element of `+`. */
  function Origin(): (o: Point2D)
    ensures forall p :: Add(p, o) == p && Add(o, p) == p
  {
    Point2D(0.0, 0.0)
  }

  /** Componentwise addition; subtracting either operand gives back the other. */
  function Add(lhs: Point2D, rhs: Point2D): (r: Point2D)
    ensures Sub(r, rhs) == lhs && Sub(r, lhs) == rhs
  {
    Point2D(lhs.x + rhs.x, lhs.y + rhs.y)
  }

  /** Componentwise subtraction: the result is what must be added to `rhs` to reach `lhs`. */
  function Sub(lhs: Point2D, rhs: Point2D): (r: Point2D)
    ensures r.x + rhs.x == lhs.x && r.y + rhs.y == lhs.y
  {
    Point2D(lhs.x - rhs.x, lhs.y - rhs.y)
  }

  lemma AddCommutes(a: Point2D, b: Point2D)
    ensures Add(a, b) == Add(b, a)
  {
  }
}
