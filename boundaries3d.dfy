/**
 * Boundary3D: an axis-aligned box given by its center and half-extent,
 * with half-open containment on all three axes. Nothing in the quadtree
 * uses it.
 */
module Boundaries3D {
  import opened Points3D

  /** `center` and `halfLength` are the getters of the C++ class. */
  datatype Boundary3D = Boundary3D(center: Point3D, halfLength: Point3D)

  /** The default-constructed box: zero center and zero half-length. */
  function Default(): (b: Boundary3D)
    ensures forall p :: !Contains(b, p)
  {
    Boundary3D(Origin(), Origin())
  }

  /** The minimum corner: the center moved back by the half-length. */
  function Min(b: Boundary3D): (p: Point3D)
    ensures Add(p, b.halfLength) == b.center
  {
    Sub(b.center, b.halfLength)
  }

  /** The maximum corner: the center moved forward by the half-length. */
  function Max(b: Boundary3D): (p: Point3D)
    ensures Sub(p, b.halfLength) == b.center
  {
    Add(b.center, b.halfLength)
  }

  /** Half-open containment, on all three axes. */
  function Contains(b: Boundary3D, p: Point3D): (r: bool)
    ensures r <==> && b.center.x - b.halfLength.x <= p.x < b.center.x + b.halfLength.x
                   && b.center.y - b.halfLength.y <= p.y < b.center.y + b.halfLength.y
                   && b.center.z - b.halfLength.z <= p.z < b.center.z + b.halfLength.z
  {
    var min := Min(b);
    var max := Max(b);
    p.x < max.x && p.x >= min.x && p.y < max.y && p.y >= min.y && p.z < max.z && p.z >= min.z
  }

  /**
   * True unless the two boxes are separated along some axis. A point lying
   * in both, whatever their extent, makes them intersect.
   */
  function Intersects(b: Boundary3D, other: Boundary3D): (r: bool)
    ensures forall p :: Contains(b, p) && Contains(other, p) ==> r
  {
    var min, max := Min(b), Max(b);
    var omin, omax := Min(other), Max(other);
    !(max.x <= omin.x || omax.x <= min.x
      || max.y <= omin.y || omax.y <= min.y
      || max.z <= omin.z || omax.z <= min.z)
  }

  /** Two boxes with positive extent intersect exactly when some point lies in both. */
  lemma IntersectsIffCommonPoint(a: Boundary3D, b: Boundary3D)
    requires 0.0 < a.halfLength.x && 0.0 < a.halfLength.y && 0.0 < a.halfLength.z
    requires 0.0 < b.halfLength.x && 0.0 < b.halfLength.y && 0.0 < b.halfLength.z
    ensures Intersects(a, b) <==> exists p :: Contains(a, p) && Contains(b, p)
  {
    if Intersects(a, b) {
      var w := Point3D(if Min(a).x < Min(b).x then Min(b).x else Min(a).x,
                       if Min(a).y < Min(b).y then Min(b).y else Min(a).y,
                       if Min(a).z < Min(b).z then Min(b).z else Min(a).z);
      assert Contains(a, w) && Contains(b, w);
    }
  }

  lemma IntersectsSymmetric(a: Boundary3D, b: Boundary3D)
    ensures Intersects(a, b) == Intersects(b, a)
  {
  }
}
