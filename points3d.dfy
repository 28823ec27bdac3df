/** Point3D: the three-dimensional point type, with exact real coordinates. */
module Points3D {

  /** The three-argument constructor; `x`, `y` and `z` are the getters. */
  datatype Point3D = Point3D(x: real, y: real, z: real)

  /** The default-constructed point: the neutral element of `+`. */
  function Origin(): (o: Point3D)
    ensures forall p :: Add(p, o) == p && Add(o, p) == p
  {
    Point3D(0.0, 0.0, 0.0)
  }

  /** Componentwise addition; subtracting either operand gives back the other. */
  function Add(lhs: Point3D, rhs: Point3D): (r: Point3D)
    ensures Sub(r, rhs) == lhs && Sub(r, lhs) == rhs
  {
    Point3D(lhs.x + rhs.x, lhs.y + rhs.y, lhs.z + rhs.z)
  }

  /** Componentwise subtraction: the result is what must be added to `rhs` to reach `lhs`. */
  function Sub(lhs: Point3D, rhs: Point3D): (r: Point3D)
    ensures r.x + rhs.x == lhs.x && r.y + rhs.y == lhs.y && r.z + rhs.z == lhs.z
  {
    Point3D(lhs.x - rhs.x, lhs.y - rhs.y, lhs.z - rhs.z)
  }
}
