/**
 * Boundary2D: an axis-aligned rectangle given by its center and its
 * half-extent on each axis. Containment is half-open: the minimum edges
 * belong to the rectangle, the maximum edges do not.
 */
module Boundaries2D {
  import opened Points2D

  datatype Boundary2D = Boundary2D(center: Point2D, halfLength: Point2D)

  /** The default-constructed boundary: zero center and zero half-length. */
  function Default(): (b: Boundary2D)
    ensures forall p :: !Contains(b, p)
  {
    Boundary2D(Origin(), Origin())
  }

  /** The minimum corner: the center moved back by the half-length. */
  function Min(b: Boundary2D): (p: Point2D)
    ensures Add(p, b.halfLength) == b.center
  {
    Sub(b.center, b.halfLength)
  }

  /** The maximum corner: the center moved forward by the half-length. */
  function Max(b: Boundary2D): (p: Point2D)
    ensures Sub(p, b.halfLength) == b.center
  {
    Add(b.center, b.halfLength)
  }

  /** Half-open containment, on both axes. */
  function Contains(b: Boundary2D, p: Point2D): (r: bool)
    ensures r <==> && b.center.x - b.halfLength.x <= p.x < b.center.x + b.halfLength.x
                   && b.center.y - b.halfLength.y <= p.y < b.center.y + b.halfLength.y
  {
    var min := Min(b);
    var max := Max(b);
    p.x < max.x && p.x >= min.x && p.y < max.y && p.y >= min.y
  }

  /**
   * True unless the two rectangles are separated along some axis. A point
   * lying in both, whatever their extent, makes them intersect.
   */
  function Intersects(b: Boundary2D, other: Boundary2D): (r: bool)
    ensures forall p :: Contains(b, p) && Contains(other, p) ==> r
  {
    var min, max := Min(b), Max(b);
    var omin, omax := Min(other), Max(other);
    !(max.x <= omin.x || omax.x <= min.x || max.y <= omin.y || omax.y <= min.y)
  }

  /** The half-length of each quadrant: half of this half-length. */
  function HalfHalfLength(b: Boundary2D): (hh: Point2D)
    ensures Add(hh, hh) == b.halfLength
  {
    Point2D(b.halfLength.x / 2.0, b.halfLength.y / 2.0)
  }

  /** The quadrant [min.x, center.x) x [min.y, center.y). */
  function NW(b: Boundary2D): (q: Boundary2D)
    ensures q.halfLength == HalfHalfLength(b)
    ensures Min(q) == Min(b) && Max(q) == b.center
  {
    var hh := HalfHalfLength(b);
    Boundary2D(Add(Min(b), hh), hh)
  }

  /** The quadrant [center.x, max.x) x [min.y, center.y). */
  function NE(b: Boundary2D): (q: Boundary2D)
    ensures q.halfLength == HalfHalfLength(b)
    ensures Min(q) == Point2D(b.center.x, Min(b).y) && Max(q) == Point2D(Max(b).x, b.center.y)
  {
    var hh := HalfHalfLength(b);
    Boundary2D(Add(Point2D(b.center.x, Min(b).y), hh), hh)
  }

  /** The quadrant [min.x, center.x) x [center.y, max.y). */
  function SW(b: Boundary2D): (q: Boundary2D)
    ensures q.halfLength == HalfHalfLength(b)
    ensures Min(q) == Point2D(Min(b).x, b.center.y) && Max(q) == Point2D(b.center.x, Max(b).y)
  {
    var hh := HalfHalfLength(b);
    Boundary2D(Add(Point2D(Min(b).x, b.center.y), hh), hh)
  }

  /** The quadrant [center.x, max.x) x [center.y, max.y). */
  function SE(b: Boundary2D): (q: Boundary2D)
    ensures q.halfLength == HalfHalfLength(b)
    ensures Min(q) == b.center && Max(q) == Max(b)
  {
    var hh := HalfHalfLength(b);
    Boundary2D(Add(b.center, hh), hh)
  }

  /** 1 if `p` lies in `q`, else 0. */
  function InCount(q: Boundary2D, p: Point2D): nat
  {
    if Contains(q, p) then 1 else 0
  }

  /** A point of the rectangle lies in exactly one of its four quadrants. */
  lemma QuadrantsPartition(b: Boundary2D, p: Point2D)
    requires Contains(b, p)
    ensures InCount(NW(b), p) + InCount(NE(b), p) + InCount(SW(b), p) + InCount(SE(b), p) == 1
  {
    var q1, q2, q3, q4 := NW(b), NE(b), SW(b), SE(b);
    if p.x < b.center.x {
      assert !Contains(q2, p) && !Contains(q4, p);
      if p.y < b.center.y {
        assert Contains(q1, p) && !Contains(q3, p);
      } else {
        assert Contains(q3, p) && !Contains(q1, p);
      }
    } else {
      assert !Contains(q1, p) && !Contains(q3, p);
      if p.y < b.center.y {
        assert Contains(q2, p) && !Contains(q4, p);
      } else {
        assert Contains(q4, p) && !Contains(q2, p);
      }
    }
  }

  /**
   * Containment is half-open: the minimum corner belongs to the rectangle
   * exactly when it has extent on both axes, the maximum corner never.
   */
  lemma CornersHalfOpen(b: Boundary2D)
    ensures Contains(b, Min(b)) <==> 0.0 < b.halfLength.x && 0.0 < b.halfLength.y
    ensures !Contains(b, Max(b))
  {
  }

  /** Each quadrant lies inside the rectangle it was cut from. */
  lemma QuadrantsInside(b: Boundary2D, p: Point2D)
    requires Contains(NW(b), p) || Contains(NE(b), p) || Contains(SW(b), p) || Contains(SE(b), p)
    ensures Contains(b, p)
  {
    var q1, q2, q3, q4 := NW(b), NE(b), SW(b), SE(b);
  }

  /**
   * Two rectangles with positive extent intersect exactly when some point
   * lies in both. (A rectangle with a non-positive half-length contains no
   * point but may still "intersect" another one.)
   */
  lemma IntersectsIffCommonPoint(a: Boundary2D, b: Boundary2D)
    requires 0.0 < a.halfLength.x && 0.0 < a.halfLength.y
    requires 0.0 < b.halfLength.x && 0.0 < b.halfLength.y
    ensures Intersects(a, b) <==> exists p :: Contains(a, p) && Contains(b, p)
  {
    if Intersects(a, b) {
      var w := Point2D(if Min(a).x < Min(b).x then Min(b).x else Min(a).x,
                       if Min(a).y < Min(b).y then Min(b).y else Min(a).y);
      assert Contains(a, w) && Contains(b, w);
    }
  }

  lemma IntersectsSymmetric(a: Boundary2D, b: Boundary2D)
    ensures Intersects(a, b) == Intersects(b, a)
  {
  }
}
