/**
 * The quadtree as a value. Every operation of the C++ QuadTree that
 * changes nodes in place is mirrored here by a function on `QTree`, with
 * the same branches in the same order; the class in quadtree.dfy is proved
 * to compute exactly these functions on its node array. The lemmas state
 * the tree invariants and what insert, remove, subdivide, unsubdivide and
 * queryRange promise.
 */
module QuadTreeSpec {
  import opened Points2D
  import opened Boundaries2D

  /** GameObject: the entry record, an id and a position. */
  datatype GameObject = GameObject(id: nat, pos: Point2D)

  /** capacity_ and min_quad_ of one tree. */
  datatype Config = Config(capacity: nat, minQuad: Point2D)

  /**
   * A node: a leaf holds its list of entries, an internal node holds its
   * four children. (The list an internal node keeps is always empty.)
   */
  datatype QTree =
    | Leaf(boundary: Boundary2D, entries: seq<GameObject>)
    | Node(boundary: Boundary2D, nw: QTree, ne: QTree, sw: QTree, se: QTree)

  // ---------------------------------------------------------------------
  // Measures

  /** The guard of subdivide_: the quarter-extent exceeds min_quad_ on both axes. */
  predicate CanSubdivide(b: Boundary2D, minQuad: Point2D)
  {
    var hh := HalfHalfLength(b);
    !(hh.x <= minQuad.x || hh.y <= minQuad.y)
  }

  /** How many times the x half-length still holds min_quad_.x: bounds the depth of subdivision. */
  function Level(b: Boundary2D, minQuad: Point2D): nat
  {
    if 0.0 < minQuad.x && minQuad.x <= b.halfLength.x then
      QuotientAtLeastOne(b.halfLength.x, minQuad.x);
      (b.halfLength.x / minQuad.x).Floor
    else 0
  }

  lemma QuotientAtLeastOne(h: real, m: real)
    requires 0.0 < m <= h
    ensures 1.0 <= h / m
  {
    var q := h / m;
    assert q * m == h;
    assert q < 1.0 ==> q * m < m;
  }

  lemma FloorOfHalf(x: real)
    requires 2.0 <= x
    ensures (x / 2.0).Floor < x.Floor
  {
  }

  /** A quadrant of a box that may still be split sits at a strictly lower level. */
  lemma LevelDrops(b: Boundary2D, minQuad: Point2D, q: Boundary2D)
    requires 0.0 < minQuad.x && CanSubdivide(b, minQuad)
    requires q.halfLength == HalfHalfLength(b)
    ensures Level(q, minQuad) < Level(b, minQuad)
  {
    var h, m := b.halfLength.x, minQuad.x;
    assert q.halfLength.x == h / 2.0 && m < h / 2.0;
    QuotientAtLeastTwo(h, m);
    HalvedQuotient(h, m);
    FloorOfHalf(h / m);
  }

  lemma QuotientAtLeastTwo(h: real, m: real)
    requires 0.0 < m && 2.0 * m <= h
    ensures 2.0 <= h / m
  {
    var q := h / m;
    assert q * m == h;
    assert q < 2.0 ==> q * m < 2.0 * m;
  }

  lemma HalvedQuotient(h: real, m: real)
    requires 0.0 < m
    ensures (h / 2.0) / m == (h / m) / 2.0
  {
    var x := h / m;
    assert x * m == h;
    assert ((x / 2.0) * m) * 2.0 == h;
  }

  function Max(a: nat, b: nat): nat
  {
    if a < b then b else a
  }

  /**
   * The termination measure of insert_ and subdivide_: at least the level
   * of the node, and above the rank of every child.
   */
  function Rank(t: QTree, minQuad: Point2D): nat
  {
    match t
    case Leaf(b, _) => Level(b, minQuad)
    case Node(b, nw, ne, sw, se) =>
      Max(Level(b, minQuad),
          1 + Max(Max(Rank(nw, minQuad), Rank(ne, minQuad)), Max(Rank(sw, minQuad), Rank(se, minQuad))))
  }

  /** How many pool slots the tree occupies. */
  function NodeCount(t: QTree): nat
  {
    match t
    case Leaf(_, _) => 1
    case Node(_, nw, ne, sw, se) => 1 + NodeCount(nw) + NodeCount(ne) + NodeCount(sw) + NodeCount(se)
  }

  // ---------------------------------------------------------------------
  // Reading the tree

  /** size_: the number of entries, counted over the whole tree; every stored entry counts once. */
  function Size(t: QTree): (n: nat)
    ensures n == |Entries(t)|
  {
    match t
    case Leaf(_, es) => |es|
    case Node(_, nw, ne, sw, se) => Size(nw) + Size(ne) + Size(sw) + Size(se)
  }

  /** All entries, leaf by leaf, in NW, NE, SW, SE order. */
  function Entries(t: QTree): seq<GameObject>
  {
    match t
    case Leaf(_, es) => es
    case Node(_, nw, ne, sw, se) => Entries(nw) + Entries(ne) + Entries(sw) + Entries(se)
  }

  /** The `objects` list of a node: the entries of a leaf, empty at an internal node. */
  function Objects(t: QTree): seq<GameObject>
  {
    if t.Leaf? then t.entries else []
  }

  /** The entries of `es` whose position lies in `range`, in their order. */
  function InRange(es: seq<GameObject>, range: Boundary2D): (r: seq<GameObject>)
    ensures |r| <= |es|
    ensures forall e :: e in r <==> e in es && Contains(range, e.pos)
    ensures multiset(r) <= multiset(es)
  {
    if es == [] then []
    else
      var last := es[|es| - 1];
      assert es == es[..|es| - 1] + [last];
      InRange(es[..|es| - 1], range) + (if Contains(range, last.pos) then [last] else [])
  }

  lemma {:induction false} InRangeAppend(a: seq<GameObject>, b: seq<GameObject>, range: Boundary2D)
    ensures InRange(a + b, range) == InRange(a, range) + InRange(b, range)
    decreases |b|
  {
    if b != [] {
      var last := b[|b| - 1];
      assert a + b == (a + b[..|b| - 1]) + [last];
      assert (a + b)[..|a + b| - 1] == a + b[..|b| - 1];
      InRangeAppend(a, b[..|b| - 1], range);
    } else {
      assert a + b == a;
    }
  }

  /** A list with no entry in the range contributes nothing. */
  lemma InRangeEmpty(es: seq<GameObject>, range: Boundary2D)
    requires forall e :: e in es ==> !Contains(range, e.pos)
    ensures InRange(es, range) == []
  {
    var r := InRange(es, range);
    assert forall k :: 0 <= k < |r| ==> r[k] in r;
  }

  /** The entries of `es` that do not compare equal to `obj`, in their order (std::remove). */
  function Keep(es: seq<GameObject>, obj: GameObject, eq: (GameObject, GameObject) -> bool): (r: seq<GameObject>)
    ensures |r| <= |es|
    ensures forall e :: eq(e, obj) ==> multiset(r)[e] == 0
    ensures forall e :: !eq(e, obj) ==> multiset(r)[e] == multiset(es)[e]
  {
    if es == [] then []
    else
      var last := es[|es| - 1];
      assert es == es[..|es| - 1] + [last];
      Keep(es[..|es| - 1], obj, eq) + (if eq(last, obj) then [] else [last])
  }

  lemma {:induction false} KeepAppend(a: seq<GameObject>, b: seq<GameObject>, obj: GameObject,
                                      eq: (GameObject, GameObject) -> bool)
    ensures Keep(a + b, obj, eq) == Keep(a, obj, eq) + Keep(b, obj, eq)
    decreases |b|
  {
    if b != [] {
      var last := b[|b| - 1];
      assert a + b == (a + b[..|b| - 1]) + [last];
      assert (a + b)[..|a + b| - 1] == a + b[..|b| - 1];
      KeepAppend(a, b[..|b| - 1], obj, eq);
    } else {
      assert a + b == a;
    }
  }

  /** Keep leaves a list with no equal entry untouched. */
  lemma {:induction false} KeepNothingEqual(es: seq<GameObject>, obj: GameObject, eq: (GameObject, GameObject) -> bool)
    requires forall e :: e in es ==> !eq(e, obj)
    ensures Keep(es, obj, eq) == es
    decreases |es|
  {
    if es != [] {
      assert es == es[..|es| - 1] + [es[|es| - 1]];
      KeepNothingEqual(es[..|es| - 1], obj, eq);
    }
  }

  // ---------------------------------------------------------------------
  // Operations

  /**
   * insert_: refused outside the boundary; a leaf appends while under
   * capacity, and when full tries to subdivide, appending anyway when that
   * is refused; otherwise the children are tried in NW, NE, SW, SE order.
   * The second component is the returned flag.
   */
  function Insert(t: QTree, obj: GameObject, cfg: Config): (r: (QTree, bool))
    requires 0.0 < cfg.minQuad.x
    ensures r.0.boundary == t.boundary
    ensures Rank(r.0, cfg.minQuad) <= Rank(t, cfg.minQuad)
    ensures NodeCount(t) <= NodeCount(r.0)
    ensures !Contains(t.boundary, obj.pos) ==> r == (t, false)
    decreases Rank(t, cfg.minQuad), 2, 0
  {
    if !Contains(t.boundary, obj.pos) then (t, false)
    else if t.Leaf? then
      if |t.entries| < cfg.capacity then (Leaf(t.boundary, t.entries + [obj]), true)
      else
        var (s, split) := Subdivide(t, cfg);
        if !split then (Leaf(t.boundary, t.entries + [obj]), true)
        else InsertIntoChildren(s, obj, cfg)
    else InsertIntoChildren(t, obj, cfg)
  }

  /**
   * The tail of insert_ at an internal node: the first child that accepts
   * wins; children that refuse are kept as they come back.
   */
  function InsertIntoChildren(t: QTree, obj: GameObject, cfg: Config): (r: (QTree, bool))
    requires 0.0 < cfg.minQuad.x && t.Node?
    ensures r.0.Node? && r.0.boundary == t.boundary
    ensures Rank(r.0, cfg.minQuad) <= Rank(t, cfg.minQuad)
    ensures NodeCount(t) <= NodeCount(r.0)
    decreases Rank(t, cfg.minQuad), 1, 0
  {
    var (nw, okNW) := Insert(t.nw, obj, cfg);
    if okNW then (t.(nw := nw), true)
    else
      var (ne, okNE) := Insert(t.ne, obj, cfg);
      if okNE then (t.(nw := nw, ne := ne), true)
      else
        var (sw, okSW) := Insert(t.sw, obj, cfg);
        if okSW then (t.(nw := nw, ne := ne, sw := sw), true)
        else
          var (se, okSE) := Insert(t.se, obj, cfg);
          (t.(nw := nw, ne := ne, sw := sw, se := se), okSE)
  }

  /** The four empty children subdivide_ creates. */
  function Split(b: Boundary2D): QTree
  {
    Node(b, Leaf(NW(b), []), Leaf(NE(b), []), Leaf(SW(b), []), Leaf(SE(b), []))
  }

  /**
   * subdivide_: refused when the quarter-extent is at most min_quad_ on
   * either axis; otherwise four quadrant children are created, every entry
   * is offered to all four in order, and the node's own list is cleared.
   */
  function Subdivide(t: QTree, cfg: Config): (r: (QTree, bool))
    requires 0.0 < cfg.minQuad.x && t.Leaf?
    ensures r.0.boundary == t.boundary
    ensures Rank(r.0, cfg.minQuad) <= Rank(t, cfg.minQuad)
    ensures NodeCount(t) <= NodeCount(r.0)
    ensures r.1 <==> CanSubdivide(t.boundary, cfg.minQuad)
    ensures !r.1 ==> r.0 == t
    ensures r.1 ==> r.0.Node?
    decreases Rank(t, cfg.minQuad), 1, 0
  {
    var b := t.boundary;
    if !CanSubdivide(b, cfg.minQuad) then (t, false)
    else
      LevelDrops(b, cfg.minQuad, NW(b));
      LevelDrops(b, cfg.minQuad, NE(b));
      LevelDrops(b, cfg.minQuad, SW(b));
      LevelDrops(b, cfg.minQuad, SE(b));
      assert Rank(Split(b), cfg.minQuad) == Level(b, cfg.minQuad);
      (ReinsertAll(t.entries, Split(b), cfg), true)
  }

  /** The loop of subdivide_: each entry, in order, offered to NW, NE, SW and SE. */
  function ReinsertAll(es: seq<GameObject>, n: QTree, cfg: Config): (r: QTree)
    requires 0.0 < cfg.minQuad.x && n.Node?
    ensures r.Node? && r.boundary == n.boundary
    ensures Rank(r, cfg.minQuad) <= Rank(n, cfg.minQuad)
    ensures NodeCount(n) <= NodeCount(r)
    decreases Rank(n, cfg.minQuad), 0, |es|
  {
    if es == [] then n
    else
      var (nw, _) := Insert(n.nw, es[0], cfg);
      var (ne, _) := Insert(n.ne, es[0], cfg);
      var (sw, _) := Insert(n.sw, es[0], cfg);
      var (se, _) := Insert(n.se, es[0], cfg);
      ReinsertAll(es[1..], Node(n.boundary, nw, ne, sw, se), cfg)
  }

  /**
   * remove_: refused outside the boundary; a leaf drops every entry equal
   * to `obj` (std::remove then erase) and reports whether any was dropped;
   * an internal node asks NW, NE, SW, SE in turn, stopping at the first
   * success, and then tries to merge its children.
   */
  function Remove(t: QTree, obj: GameObject, eq: (GameObject, GameObject) -> bool, cfg: Config): (r: (QTree, bool))
    ensures r.0.boundary == t.boundary
    ensures !r.1 ==> r.0 == t
    ensures !Contains(t.boundary, obj.pos) ==> r == (t, false)
    decreases t
  {
    if !Contains(t.boundary, obj.pos) then (t, false)
    else match t
      case Leaf(b, es) =>
        var kept := Keep(es, obj, eq);
        if |kept| < |es| then (Leaf(b, kept), true) else (t, false)
      case Node(b, nw, ne, sw, se) =>
        var (nw', okNW) := Remove(nw, obj, eq, cfg);
        if okNW then (Unsubdivide(t.(nw := nw'), cfg), true)
        else
          var (ne', okNE) := Remove(ne, obj, eq, cfg);
          if okNE then (Unsubdivide(t.(ne := ne'), cfg), true)
          else
            var (sw', okSW) := Remove(sw, obj, eq, cfg);
            if okSW then (Unsubdivide(t.(sw := sw'), cfg), true)
            else
              var (se', okSE) := Remove(se, obj, eq, cfg);
              if okSE then (Unsubdivide(t.(se := se'), cfg), true)
              else (t, false)
  }

  /**
   * unsubdivide_: an internal node whose NW child is a leaf and whose
   * subtree holds at most capacity_ entries becomes a leaf holding its
   * own list followed by the four children's lists; otherwise unchanged.
   */
  function Unsubdivide(t: QTree, cfg: Config): (r: QTree)
    ensures r.boundary == t.boundary
  {
    if t.Node? && t.nw.Leaf? && Size(t) <= cfg.capacity then
      Leaf(t.boundary, Objects(t) + Objects(t.nw) + Objects(t.ne) + Objects(t.sw) + Objects(t.se))
    else t
  }

  /**
   * query_range_: nothing from a subtree whose boundary misses the range;
   * a leaf contributes its entries inside the range, an internal node the
   * results of NW, NE, SW, SE in that order.
   */
  function Query(t: QTree, range: Boundary2D): (r: seq<GameObject>)
    ensures forall e :: e in r ==> e in Entries(t) && Contains(range, e.pos)
    decreases t
  {
    if !Intersects(t.boundary, range) then []
    else match t
      case Leaf(_, es) => InRange(es, range)
      case Node(_, nw, ne, sw, se) => Query(nw, range) + Query(ne, range) + Query(sw, range) + Query(se, range)
  }

  // ---------------------------------------------------------------------
  // The invariant

  /**
   * Every entry lies inside the boundary of the leaf holding it; a leaf
   * holds more than capacity_ entries only when it cannot be split; an
   * internal node holds more than capacity_ entries in its subtree and its
   * children are exactly its four quadrants.
   */
  ghost predicate TreeInv(t: QTree, cfg: Config)
    decreases t, 1
  {
    match t
    case Leaf(b, es) =>
      && (forall e :: e in es ==> Contains(b, e.pos))
      && (|es| > cfg.capacity ==> !CanSubdivide(b, cfg.minQuad))
    case Node(_, _, _, _, _) =>
      KidsInv(t, cfg) && Size(t) > cfg.capacity
  }

  /** The part of TreeInv about an internal node's children. */
  ghost predicate KidsInv(t: QTree, cfg: Config)
    requires t.Node?
    decreases t, 0
  {
    var b := t.boundary;
    && t.nw.boundary == NW(b) && t.ne.boundary == NE(b)
    && t.sw.boundary == SW(b) && t.se.boundary == SE(b)
    && CanSubdivide(b, cfg.minQuad)
    && TreeInv(t.nw, cfg) && TreeInv(t.ne, cfg) && TreeInv(t.sw, cfg) && TreeInv(t.se, cfg)
  }

  // ---------------------------------------------------------------------
  // Lemmas: the invariant and what insert and subdivide promise

  /** Every entry of a tree that keeps the invariant lies inside its root boundary. */
  lemma {:induction false} EntriesInside(t: QTree, cfg: Config)
    requires TreeInv(t, cfg)
    ensures forall e :: e in Entries(t) ==> Contains(t.boundary, e.pos)
  {
    match t
    case Leaf(_, _) =>
    case Node(b, nw, ne, sw, se) =>
      EntriesInside(nw, cfg);
      EntriesInside(ne, cfg);
      EntriesInside(sw, cfg);
      EntriesInside(se, cfg);
      forall e | e in Entries(t)
        ensures Contains(b, e.pos)
      {
        QuadrantsInside(b, e.pos);
      }
  }

  predicate AboveMinQuad(b: Boundary2D, minQuad: Point2D)
  {
    b.halfLength.x > minQuad.x && b.halfLength.y > minQuad.y
  }

  /** Every node below `t` has a half-length above min_quad_ on both axes. */
  ghost predicate DescendantsAboveMinQuad(t: QTree, minQuad: Point2D)
  {
    match t
    case Leaf(_, _) => true
    case Node(_, nw, ne, sw, se) =>
      && AboveMinQuad(nw.boundary, minQuad) && AboveMinQuad(ne.boundary, minQuad)
      && AboveMinQuad(sw.boundary, minQuad) && AboveMinQuad(se.boundary, minQuad)
      && DescendantsAboveMinQuad(nw, minQuad) && DescendantsAboveMinQuad(ne, minQuad)
      && DescendantsAboveMinQuad(sw, minQuad) && DescendantsAboveMinQuad(se, minQuad)
  }

  /** Under the invariant no node but the root is at or below min_quad_. */
  lemma {:induction false} NonRootAboveMinQuad(t: QTree, cfg: Config)
    requires TreeInv(t, cfg)
    ensures DescendantsAboveMinQuad(t, cfg.minQuad)
  {
    match t
    case Leaf(_, _) =>
    case Node(_, nw, ne, sw, se) =>
      NonRootAboveMinQuad(nw, cfg);
      NonRootAboveMinQuad(ne, cfg);
      NonRootAboveMinQuad(sw, cfg);
      NonRootAboveMinQuad(se, cfg);
  }

  /** Every entry of a list inside `b` lands in exactly one quadrant's share. */
  lemma {:induction false} QuadrantSplit(es: seq<GameObject>, b: Boundary2D)
    requires forall e :: e in es ==> Contains(b, e.pos)
    ensures multiset(InRange(es, NW(b))) + multiset(InRange(es, NE(b)))
            + multiset(InRange(es, SW(b))) + multiset(InRange(es, SE(b))) == multiset(es)
    decreases |es|
  {
    if es != [] {
      var init, last := es[..|es| - 1], es[|es| - 1];
      assert es == init + [last];
      assert last in es;
      QuadrantSplit(init, b);
      QuadrantsPartition(b, last.pos);
    }
  }

  /** The entries of a singleton list inside a range. */
  lemma InRangeSingle(e: GameObject, range: Boundary2D)
    ensures InRange([e], range) == if Contains(range, e.pos) then [e] else []
  {
    assert [e][..0] == [];
  }

  /** A leaf with room appends an entry inside its boundary and refuses the others. */
  lemma InsertRoomyLeaf(q: Boundary2D, f: seq<GameObject>, e: GameObject, cfg: Config)
    requires 0.0 < cfg.minQuad.x && |f| < cfg.capacity
    ensures Insert(Leaf(q, f), e, cfg) == (Leaf(q, f + InRange([e], q)), Contains(q, e.pos))
  {
    InRangeSingle(e, q);
    assert f + [] == f;
  }

  /** One round of the loop of subdivide_. */
  lemma ReinsertStep(es: seq<GameObject>, n: QTree, cfg: Config)
    requires 0.0 < cfg.minQuad.x && n.Node? && es != []
    ensures ReinsertAll(es, n, cfg)
         == ReinsertAll(es[1..], Node(n.boundary, Insert(n.nw, es[0], cfg).0, Insert(n.ne, es[0], cfg).0,
                                      Insert(n.sw, es[0], cfg).0, Insert(n.se, es[0], cfg).0), cfg)
  {
  }

  /** Appending the share of a list's head and then the share of its tail. */
  lemma ShareOfCons(f: seq<GameObject>, e: GameObject, rest: seq<GameObject>, q: Boundary2D)
    ensures (f + InRange([e], q)) + InRange(rest, q) == f + InRange([e] + rest, q)
  {
    InRangeAppend([e], rest, q);
  }

  /**
   * Offering entries to four quadrant leaves with room for all of them
   * appends to each leaf exactly the entries inside its quadrant.
   */
  lemma {:induction false} ReinsertFits(es: seq<GameObject>, b: Boundary2D,
                                        f1: seq<GameObject>, f2: seq<GameObject>,
                                        f3: seq<GameObject>, f4: seq<GameObject>, cfg: Config)
    requires 0.0 < cfg.minQuad.x
    requires |f1| + |es| <= cfg.capacity && |f2| + |es| <= cfg.capacity
    requires |f3| + |es| <= cfg.capacity && |f4| + |es| <= cfg.capacity
    ensures ReinsertAll(es, Node(b, Leaf(NW(b), f1), Leaf(NE(b), f2), Leaf(SW(b), f3), Leaf(SE(b), f4)), cfg)
         == Node(b, Leaf(NW(b), f1 + InRange(es, NW(b))), Leaf(NE(b), f2 + InRange(es, NE(b))),
                    Leaf(SW(b), f3 + InRange(es, SW(b))), Leaf(SE(b), f4 + InRange(es, SE(b))))
    decreases |es|
  {
    if es == [] {
      assert f1 + [] == f1 && f2 + [] == f2 && f3 + [] == f3 && f4 + [] == f4;
    } else {
      var e, rest := es[0], es[1..];
      assert es == [e] + rest;
      var n := Node(b, Leaf(NW(b), f1), Leaf(NE(b), f2), Leaf(SW(b), f3), Leaf(SE(b), f4));
      InsertRoomyLeaf(NW(b), f1, e, cfg);
      InsertRoomyLeaf(NE(b), f2, e, cfg);
      InsertRoomyLeaf(SW(b), f3, e, cfg);
      InsertRoomyLeaf(SE(b), f4, e, cfg);
      ReinsertStep(es, n, cfg);
      var g1, g2 := f1 + InRange([e], NW(b)), f2 + InRange([e], NE(b));
      var g3, g4 := f3 + InRange([e], SW(b)), f4 + InRange([e], SE(b));
      ReinsertFits(rest, b, g1, g2, g3, g4, cfg);
      ShareOfCons(f1, e, rest, NW(b));
      ShareOfCons(f2, e, rest, NE(b));
      ShareOfCons(f3, e, rest, SW(b));
      ShareOfCons(f4, e, rest, SE(b));
    }
  }

  /** The node subdivide_ builds from a leaf: each quadrant child holds the entries inside it. */
  function Distribute(b: Boundary2D, es: seq<GameObject>): QTree
  {
    Node(b, Leaf(NW(b), InRange(es, NW(b))), Leaf(NE(b), InRange(es, NE(b))),
            Leaf(SW(b), InRange(es, SW(b))), Leaf(SE(b), InRange(es, SE(b))))
  }

  /**
   * A subdivision that is not refused, on a leaf that keeps the invariant,
   * gives the node its four quadrants as children, places each former
   * entry in exactly one of them, and keeps the size.
   */
  lemma SubdivideSplits(t: QTree, cfg: Config)
    requires 0.0 < cfg.minQuad.x && t.Leaf? && TreeInv(t, cfg)
    requires CanSubdivide(t.boundary, cfg.minQuad)
    ensures Subdivide(t, cfg) == (Distribute(t.boundary, t.entries), true)
    ensures KidsInv(Subdivide(t, cfg).0, cfg)
    ensures multiset(Entries(Subdivide(t, cfg).0)) == multiset(t.entries)
    ensures Size(Subdivide(t, cfg).0) == Size(t)
  {
    SubdivideDistributes(t, cfg);
    DistributeKeeps(t.boundary, t.entries, cfg);
  }

  lemma SubdivideDistributes(t: QTree, cfg: Config)
    requires 0.0 < cfg.minQuad.x && t.Leaf? && TreeInv(t, cfg)
    requires CanSubdivide(t.boundary, cfg.minQuad)
    ensures |t.entries| <= cfg.capacity
    ensures Subdivide(t, cfg) == (Distribute(t.boundary, t.entries), true)
  {
    ReinsertIntoSplit(t.entries, t.boundary, cfg);
  }

  /** Entries within capacity reinserted into four fresh quadrants land where Distribute puts them. */
  lemma ReinsertIntoSplit(es: seq<GameObject>, b: Boundary2D, cfg: Config)
    requires 0.0 < cfg.minQuad.x && |es| <= cfg.capacity
    ensures ReinsertAll(es, Split(b), cfg) == Distribute(b, es)
  {
    ReinsertFits(es, b, [], [], [], [], cfg);
    assert [] + InRange(es, NW(b)) == InRange(es, NW(b));
    assert [] + InRange(es, NE(b)) == InRange(es, NE(b));
    assert [] + InRange(es, SW(b)) == InRange(es, SW(b));
    assert [] + InRange(es, SE(b)) == InRange(es, SE(b));
  }

  /** Entries within capacity, spread over the quadrants of a divisible boundary. */
  lemma DistributeKeeps(b: Boundary2D, es: seq<GameObject>, cfg: Config)
    requires (forall e :: e in es ==> Contains(b, e.pos)) && |es| <= cfg.capacity
    requires CanSubdivide(b, cfg.minQuad)
    ensures KidsInv(Distribute(b, es), cfg)
    ensures multiset(Entries(Distribute(b, es))) == multiset(es)
    ensures Size(Distribute(b, es)) == |es|
  {
    QuadrantSplit(es, b);
    var d := Distribute(b, es);
    assert |multiset(Entries(d))| == |multiset(es)|;
  }

  /** A refused subdivision changes nothing, and the entry is appended past capacity. */
  lemma InsertPastCapacity(t: QTree, obj: GameObject, cfg: Config)
    requires 0.0 < cfg.minQuad.x && t.Leaf? && Contains(t.boundary, obj.pos)
    requires |t.entries| >= cfg.capacity && !CanSubdivide(t.boundary, cfg.minQuad)
    ensures Subdivide(t, cfg) == (t, false)
    ensures Insert(t, obj, cfg) == (Leaf(t.boundary, t.entries + [obj]), true)
  {
  }

  /**
   * insert on a tree that keeps the invariant, with the position inside
   * the root: the flag is true, the invariant is kept and the entries gain
   * exactly `obj`. (So the fallback `return false` is never reached.)
   */
  lemma {:induction false} InsertCorrect(t: QTree, obj: GameObject, cfg: Config)
    requires 0.0 < cfg.minQuad.x && TreeInv(t, cfg) && Contains(t.boundary, obj.pos)
    ensures Insert(t, obj, cfg).1
    ensures TreeInv(Insert(t, obj, cfg).0, cfg)
    ensures multiset(Entries(Insert(t, obj, cfg).0)) == multiset(Entries(t)) + multiset{obj}
    ensures Size(Insert(t, obj, cfg).0) == Size(t) + 1
    decreases Rank(t, cfg.minQuad), 2, 0
  {
    var r := Insert(t, obj, cfg).0;
    if t.Leaf? {
      if |t.entries| >= cfg.capacity && CanSubdivide(t.boundary, cfg.minQuad) {
        SubdivideSplits(t, cfg);
        var s := Subdivide(t, cfg).0;
        InsertIntoChildrenCorrect(s, obj, cfg);
        assert |multiset(Entries(r))| == |t.entries| + 1;
      }
    } else {
      InsertIntoChildrenCorrect(t, obj, cfg);
      assert |multiset(Entries(r))| == |multiset(Entries(t))| + 1;
    }
  }

  /** The children part of insert_ hands the entry to the one child whose quadrant holds it. */
  lemma InsertIntoChildrenPicks(t: QTree, obj: GameObject, cfg: Config)
    requires 0.0 < cfg.minQuad.x && t.Node? && Contains(t.boundary, obj.pos)
    requires t.nw.boundary == NW(t.boundary) && t.ne.boundary == NE(t.boundary)
    requires t.sw.boundary == SW(t.boundary) && t.se.boundary == SE(t.boundary)
    ensures Contains(t.nw.boundary, obj.pos) ==>
              InsertIntoChildren(t, obj, cfg) == (t.(nw := Insert(t.nw, obj, cfg).0), Insert(t.nw, obj, cfg).1)
    ensures Contains(t.ne.boundary, obj.pos) ==>
              InsertIntoChildren(t, obj, cfg) == (t.(ne := Insert(t.ne, obj, cfg).0), Insert(t.ne, obj, cfg).1)
    ensures Contains(t.sw.boundary, obj.pos) ==>
              InsertIntoChildren(t, obj, cfg) == (t.(sw := Insert(t.sw, obj, cfg).0), Insert(t.sw, obj, cfg).1)
    ensures Contains(t.se.boundary, obj.pos) ==>
              InsertIntoChildren(t, obj, cfg) == (t.(se := Insert(t.se, obj, cfg).0), Insert(t.se, obj, cfg).1)
  {
    QuadrantsPartition(t.boundary, obj.pos);
  }

  /** The children part of insert_: exactly the child whose quadrant holds the position takes the entry. */
  lemma {:induction false} InsertIntoChildrenCorrect(t: QTree, obj: GameObject, cfg: Config)
    requires 0.0 < cfg.minQuad.x && t.Node? && KidsInv(t, cfg) && Contains(t.boundary, obj.pos)
    ensures InsertIntoChildren(t, obj, cfg).1
    ensures KidsInv(InsertIntoChildren(t, obj, cfg).0, cfg)
    ensures multiset(Entries(InsertIntoChildren(t, obj, cfg).0)) == multiset(Entries(t)) + multiset{obj}
    decreases Rank(t, cfg.minQuad), 1, 0
  {
    var b := t.boundary;
    QuadrantsPartition(b, obj.pos);
    InsertIntoChildrenPicks(t, obj, cfg);
    var r := InsertIntoChildren(t, obj, cfg).0;
    if Contains(NW(b), obj.pos) {
      InsertIntoKid(t, t.nw, r, obj, cfg);
    } else if Contains(NE(b), obj.pos) {
      InsertIntoKid(t, t.ne, r, obj, cfg);
    } else if Contains(SW(b), obj.pos) {
      InsertIntoKid(t, t.sw, r, obj, cfg);
    } else {
      InsertIntoKid(t, t.se, r, obj, cfg);
    }
  }

  /** The child `k` whose quadrant holds the position takes the entry, and `r` is the node with it replaced. */
  lemma {:induction false} InsertIntoKid(t: QTree, k: QTree, r: QTree, obj: GameObject, cfg: Config)
    requires 0.0 < cfg.minQuad.x && t.Node? && KidsInv(t, cfg) && Contains(k.boundary, obj.pos)
    requires || (k == t.nw && r == t.(nw := Insert(k, obj, cfg).0))
             || (k == t.ne && r == t.(ne := Insert(k, obj, cfg).0))
             || (k == t.sw && r == t.(sw := Insert(k, obj, cfg).0))
             || (k == t.se && r == t.(se := Insert(k, obj, cfg).0))
    ensures Insert(k, obj, cfg).1 && KidsInv(r, cfg)
    ensures multiset(Entries(r)) == multiset(Entries(t)) + multiset{obj}
    decreases Rank(t, cfg.minQuad), 0, 0
  {
    assert Rank(k, cfg.minQuad) < Rank(t, cfg.minQuad);
    InsertCorrect(k, obj, cfg);
    KidReplaced(t, r, Insert(k, obj, cfg).0, cfg);
    KidGrows(t, r, Insert(k, obj, cfg).0, obj);
  }

  /** Replacing one child by one over the same quadrant that keeps the invariant keeps the children's invariant. */
  lemma KidReplaced(t: QTree, r: QTree, k': QTree, cfg: Config)
    requires t.Node? && r.Node? && KidsInv(t, cfg) && TreeInv(k', cfg)
    requires || (r == t.(nw := k') && k'.boundary == t.nw.boundary)
             || (r == t.(ne := k') && k'.boundary == t.ne.boundary)
             || (r == t.(sw := k') && k'.boundary == t.sw.boundary)
             || (r == t.(se := k') && k'.boundary == t.se.boundary)
    ensures KidsInv(r, cfg)
  {
  }

  /** Replacing one child by one with one more entry adds that entry to the node. */
  lemma KidGrows(t: QTree, r: QTree, k': QTree, obj: GameObject)
    requires t.Node? && r.Node?
    requires || (r == t.(nw := k') && multiset(Entries(k')) == multiset(Entries(t.nw)) + multiset{obj})
             || (r == t.(ne := k') && multiset(Entries(k')) == multiset(Entries(t.ne)) + multiset{obj})
             || (r == t.(sw := k') && multiset(Entries(k')) == multiset(Entries(t.sw)) + multiset{obj})
             || (r == t.(se := k') && multiset(Entries(k')) == multiset(Entries(t.se)) + multiset{obj})
    ensures multiset(Entries(r)) == multiset(Entries(t)) + multiset{obj}
  {
    NodeBag(t);
    NodeBag(r);
  }

  /** The entries of an internal node, as a multiset, are the sum of its children's. */
  lemma NodeBag(t: QTree)
    requires t.Node?
    ensures multiset(Entries(t))
         == multiset(Entries(t.nw)) + multiset(Entries(t.ne)) + multiset(Entries(t.sw)) + multiset(Entries(t.se))
  {
  }


  // ---------------------------------------------------------------------
  // Lemmas: what unsubdivide and remove promise

  /**
   * unsubdivide_ on a node whose children keep the invariant: the entries
   * stay the same list, the invariant holds again, and the node becomes a
   * leaf exactly when its subtree holds at most capacity_ entries.
   */
  lemma UnsubdivideCorrect(t: QTree, cfg: Config)
    requires t.Node? && KidsInv(t, cfg)
    ensures Entries(Unsubdivide(t, cfg)) == Entries(t)
    ensures TreeInv(Unsubdivide(t, cfg), cfg)
    ensures Unsubdivide(t, cfg).Leaf? <==> Size(t) <= cfg.capacity
  {
    var b := t.boundary;
    if Size(t) <= cfg.capacity {
      assert t.nw.Leaf? && t.ne.Leaf? && t.sw.Leaf? && t.se.Leaf?;
      var r := Unsubdivide(t, cfg);
      assert [] + Entries(t.nw) == Entries(t.nw);
      assert Entries(r) == Entries(t);
      forall e | e in Entries(r)
        ensures Contains(b, e.pos)
      {
        QuadrantsInside(b, e.pos);
      }
    }
  }

  /** After remove: each count drops or stays, and only entries equal to `obj` may drop. */
  ghost predicate Removed(after: multiset<GameObject>, before: multiset<GameObject>,
                          obj: GameObject, eq: (GameObject, GameObject) -> bool)
  {
    && (forall e :: after[e] <= before[e])
    && (forall e :: !eq(e, obj) ==> after[e] == before[e])
  }

  lemma RemovedSum(a: multiset<GameObject>, b: multiset<GameObject>, c: multiset<GameObject>, d: multiset<GameObject>,
                   a': multiset<GameObject>, b': multiset<GameObject>, c': multiset<GameObject>, d': multiset<GameObject>,
                   obj: GameObject, eq: (GameObject, GameObject) -> bool)
    requires Removed(a', a, obj, eq) && Removed(b', b, obj, eq)
    requires Removed(c', c, obj, eq) && Removed(d', d, obj, eq)
    ensures Removed(a' + b' + c' + d', a + b + c + d, obj, eq)
  {
  }

  /** remove_ at an internal node, inside its boundary, hands the request to the one child whose quadrant holds the position. */
  lemma RemovePicks(t: QTree, obj: GameObject, eq: (GameObject, GameObject) -> bool, cfg: Config)
    requires t.Node? && Contains(t.boundary, obj.pos)
    requires t.nw.boundary == NW(t.boundary) && t.ne.boundary == NE(t.boundary)
    requires t.sw.boundary == SW(t.boundary) && t.se.boundary == SE(t.boundary)
    ensures Contains(t.nw.boundary, obj.pos) ==>
              Remove(t, obj, eq, cfg) == if Remove(t.nw, obj, eq, cfg).1
                                         then (Unsubdivide(t.(nw := Remove(t.nw, obj, eq, cfg).0), cfg), true)
                                         else (t, false)
    ensures Contains(t.ne.boundary, obj.pos) ==>
              Remove(t, obj, eq, cfg) == if Remove(t.ne, obj, eq, cfg).1
                                         then (Unsubdivide(t.(ne := Remove(t.ne, obj, eq, cfg).0), cfg), true)
                                         else (t, false)
    ensures Contains(t.sw.boundary, obj.pos) ==>
              Remove(t, obj, eq, cfg) == if Remove(t.sw, obj, eq, cfg).1
                                         then (Unsubdivide(t.(sw := Remove(t.sw, obj, eq, cfg).0), cfg), true)
                                         else (t, false)
    ensures Contains(t.se.boundary, obj.pos) ==>
              Remove(t, obj, eq, cfg) == if Remove(t.se, obj, eq, cfg).1
                                         then (Unsubdivide(t.(se := Remove(t.se, obj, eq, cfg).0), cfg), true)
                                         else (t, false)
  {
    QuadrantsPartition(t.boundary, obj.pos);
  }

  /**
   * A successful removal in one child, followed by unsubdivide_, keeps
   * the invariant, shrinks the node and removes only equal entries.
   */
  lemma RemoveThroughKid(t: QTree, r: QTree, k': QTree, obj: GameObject,
                         eq: (GameObject, GameObject) -> bool, cfg: Config)
    requires t.Node? && r.Node? && KidsInv(t, cfg) && TreeInv(k', cfg)
    requires || (r == t.(nw := k') && k'.boundary == t.nw.boundary && Size(k') < Size(t.nw)
                 && Removed(multiset(Entries(k')), multiset(Entries(t.nw)), obj, eq))
             || (r == t.(ne := k') && k'.boundary == t.ne.boundary && Size(k') < Size(t.ne)
                 && Removed(multiset(Entries(k')), multiset(Entries(t.ne)), obj, eq))
             || (r == t.(sw := k') && k'.boundary == t.sw.boundary && Size(k') < Size(t.sw)
                 && Removed(multiset(Entries(k')), multiset(Entries(t.sw)), obj, eq))
             || (r == t.(se := k') && k'.boundary == t.se.boundary && Size(k') < Size(t.se)
                 && Removed(multiset(Entries(k')), multiset(Entries(t.se)), obj, eq))
    ensures TreeInv(Unsubdivide(r, cfg), cfg)
    ensures Size(Unsubdivide(r, cfg)) < Size(t)
    ensures Removed(multiset(Entries(Unsubdivide(r, cfg))), multiset(Entries(t)), obj, eq)
  {
    KidReplaced(t, r, k', cfg);
    UnsubdivideCorrect(r, cfg);
    NodeBag(t);
    NodeBag(r);
    var a, b, c, d := multiset(Entries(t.nw)), multiset(Entries(t.ne)), multiset(Entries(t.sw)), multiset(Entries(t.se));
    RemovedSum(a, b, c, d, multiset(Entries(r.nw)), multiset(Entries(r.ne)), multiset(Entries(r.sw)),
               multiset(Entries(r.se)), obj, eq);
  }

  /** remove at a leaf that keeps the invariant: the kept entries still lie inside it. */
  lemma RemoveLeafCorrect(t: QTree, obj: GameObject, eq: (GameObject, GameObject) -> bool, cfg: Config)
    requires t.Leaf? && TreeInv(t, cfg)
    ensures TreeInv(Remove(t, obj, eq, cfg).0, cfg)
    ensures Remove(t, obj, eq, cfg).1 <==> Size(Remove(t, obj, eq, cfg).0) < Size(t)
    ensures Removed(multiset(Entries(Remove(t, obj, eq, cfg).0)), multiset(Entries(t)), obj, eq)
  {
    var kept := Keep(t.entries, obj, eq);
    forall e | e in kept
      ensures Contains(t.boundary, e.pos)
    {
      assert multiset(kept)[e] > 0;
      assert e in multiset(t.entries);
    }
  }

  /**
   * remove on a tree that keeps the invariant: the invariant is kept, the
   * flag is true exactly when the size dropped, and every entry that does
   * not compare equal to `obj` keeps its count.
   */
  lemma {:induction false} RemoveCorrect(t: QTree, obj: GameObject, eq: (GameObject, GameObject) -> bool, cfg: Config)
    requires TreeInv(t, cfg)
    ensures TreeInv(Remove(t, obj, eq, cfg).0, cfg)
    ensures Remove(t, obj, eq, cfg).1 <==> Size(Remove(t, obj, eq, cfg).0) < Size(t)
    ensures Removed(multiset(Entries(Remove(t, obj, eq, cfg).0)), multiset(Entries(t)), obj, eq)
    decreases t, 1
  {
    if Contains(t.boundary, obj.pos) {
      match t
      case Leaf(_, _) =>
        RemoveLeafCorrect(t, obj, eq, cfg);
      case Node(b, nw, ne, sw, se) =>
        QuadrantsPartition(b, obj.pos);
        RemovePicks(t, obj, eq, cfg);
        if Contains(NW(b), obj.pos) {
          RemoveThroughChild(t, nw, t.(nw := Remove(nw, obj, eq, cfg).0), obj, eq, cfg);
        } else if Contains(NE(b), obj.pos) {
          RemoveThroughChild(t, ne, t.(ne := Remove(ne, obj, eq, cfg).0), obj, eq, cfg);
        } else if Contains(SW(b), obj.pos) {
          RemoveThroughChild(t, sw, t.(sw := Remove(sw, obj, eq, cfg).0), obj, eq, cfg);
        } else {
          RemoveThroughChild(t, se, t.(se := Remove(se, obj, eq, cfg).0), obj, eq, cfg);
        }
    }
  }

  /** The step of RemoveCorrect at a node whose search goes down into child `k`; `r` is the node with `k` replaced. */
  lemma {:induction false} RemoveThroughChild(t: QTree, k: QTree, r: QTree, obj: GameObject,
                                              eq: (GameObject, GameObject) -> bool, cfg: Config)
    requires t.Node? && TreeInv(t, cfg)
    requires || (k == t.nw && r == t.(nw := Remove(k, obj, eq, cfg).0))
             || (k == t.ne && r == t.(ne := Remove(k, obj, eq, cfg).0))
             || (k == t.sw && r == t.(sw := Remove(k, obj, eq, cfg).0))
             || (k == t.se && r == t.(se := Remove(k, obj, eq, cfg).0))
    requires Remove(t, obj, eq, cfg) == if Remove(k, obj, eq, cfg).1 then (Unsubdivide(r, cfg), true) else (t, false)
    ensures TreeInv(Remove(t, obj, eq, cfg).0, cfg)
    ensures Remove(t, obj, eq, cfg).1 <==> Size(Remove(t, obj, eq, cfg).0) < Size(t)
    ensures Removed(multiset(Entries(Remove(t, obj, eq, cfg).0)), multiset(Entries(t)), obj, eq)
    decreases t, 0
  {
    RemoveCorrect(k, obj, eq, cfg);
    if Remove(k, obj, eq, cfg).1 {
      RemoveThroughKid(t, r, Remove(k, obj, eq, cfg).0, obj, eq, cfg);
    }
  }

  /** Keep drops something exactly when some entry compares equal to `obj`. */
  lemma {:induction false} KeepShorter(es: seq<GameObject>, obj: GameObject, eq: (GameObject, GameObject) -> bool)
    ensures |Keep(es, obj, eq)| < |es| <==> exists e :: e in es && eq(e, obj)
    decreases |es|
  {
    if es != [] {
      var init, last := es[..|es| - 1], es[|es| - 1];
      assert es == init + [last];
      KeepShorter(init, obj, eq);
      if eq(last, obj) {
        assert last in es;
      } else if exists e :: e in es && eq(e, obj) {
        var e :| e in es && eq(e, obj);
        assert e in init;
      }
    }
  }

  /** Keep over an internal node's entries is Keep over each child's, in order. */
  lemma KeepOfNode(t: QTree, obj: GameObject, eq: (GameObject, GameObject) -> bool)
    requires t.Node?
    ensures Keep(Entries(t), obj, eq)
         == Keep(Entries(t.nw), obj, eq) + Keep(Entries(t.ne), obj, eq)
            + Keep(Entries(t.sw), obj, eq) + Keep(Entries(t.se), obj, eq)
  {
    var a, b, c, d := Entries(t.nw), Entries(t.ne), Entries(t.sw), Entries(t.se);
    KeepAppend(a + b + c, d, obj, eq);
    KeepAppend(a + b, c, obj, eq);
    KeepAppend(a, b, obj, eq);
  }

  /**
   * A child that cannot hold the position holds no entry equal to `obj`,
   * when equal entries share its position.
   */
  lemma NothingEqualElsewhere(t: QTree, k: QTree, obj: GameObject, eq: (GameObject, GameObject) -> bool, cfg: Config)
    requires t.Node? && (k == t.nw || k == t.ne || k == t.sw || k == t.se)
    requires TreeInv(k, cfg)
    requires forall e :: e in Entries(t) && eq(e, obj) ==> e.pos == obj.pos
    ensures !Contains(k.boundary, obj.pos) ==> Keep(Entries(k), obj, eq) == Entries(k)
  {
    if !Contains(k.boundary, obj.pos) {
      assert forall e :: e in Entries(k) ==> e in Entries(t);
      EntriesInside(k, cfg);
      KeepNothingEqual(Entries(k), obj, eq);
    }
  }

  /** remove through one child: the entries that come back are the node's entries without those equal to `obj`. */
  lemma DeleteThroughKid(t: QTree, r: QTree, k': QTree, obj: GameObject,
                         eq: (GameObject, GameObject) -> bool, cfg: Config)
    requires t.Node? && r.Node? && KidsInv(t, cfg) && TreeInv(k', cfg)
    requires || (r == t.(nw := k') && k'.boundary == t.nw.boundary && Entries(k') == Keep(Entries(t.nw), obj, eq))
             || (r == t.(ne := k') && k'.boundary == t.ne.boundary && Entries(k') == Keep(Entries(t.ne), obj, eq))
             || (r == t.(sw := k') && k'.boundary == t.sw.boundary && Entries(k') == Keep(Entries(t.sw), obj, eq))
             || (r == t.(se := k') && k'.boundary == t.se.boundary && Entries(k') == Keep(Entries(t.se), obj, eq))
    requires r.nw == t.nw ==> Keep(Entries(t.nw), obj, eq) == Entries(t.nw)
    requires r.ne == t.ne ==> Keep(Entries(t.ne), obj, eq) == Entries(t.ne)
    requires r.sw == t.sw ==> Keep(Entries(t.sw), obj, eq) == Entries(t.sw)
    requires r.se == t.se ==> Keep(Entries(t.se), obj, eq) == Entries(t.se)
    ensures Entries(Unsubdivide(r, cfg)) == Keep(Entries(t), obj, eq)
  {
    KidReplaced(t, r, k', cfg);
    UnsubdivideCorrect(r, cfg);
    KeepOfNode(t, obj, eq);
  }

  /**
   * When entries that compare equal to `obj` also share its position,
   * remove deletes every one of them from the whole tree and keeps all
   * other entries in their order; the flag is true exactly when there was
   * one to delete.
   */
  lemma RemoveFindsAll(t: QTree, obj: GameObject, eq: (GameObject, GameObject) -> bool, cfg: Config)
    requires TreeInv(t, cfg)
    requires forall e :: e in Entries(t) && eq(e, obj) ==> e.pos == obj.pos
    ensures Entries(Remove(t, obj, eq, cfg).0) == Keep(Entries(t), obj, eq)
    ensures Remove(t, obj, eq, cfg).1 <==> exists e :: e in Entries(t) && eq(e, obj)
  {
    RemoveDeletesAll(t, obj, eq, cfg);
    RemoveCorrect(t, obj, eq, cfg);
    KeepShorter(Entries(t), obj, eq);
  }

  /** The entries left by remove are Keep of the entries before, when equal entries share the position. */
  lemma {:induction false} RemoveDeletesAll(t: QTree, obj: GameObject, eq: (GameObject, GameObject) -> bool, cfg: Config)
    requires TreeInv(t, cfg)
    requires forall e :: e in Entries(t) && eq(e, obj) ==> e.pos == obj.pos
    ensures Entries(Remove(t, obj, eq, cfg).0) == Keep(Entries(t), obj, eq)
    decreases t, 1
  {
    if !Contains(t.boundary, obj.pos) {
      EntriesInside(t, cfg);
      KeepNothingEqual(Entries(t), obj, eq);
    } else if t.Leaf? {
      KeepShorter(t.entries, obj, eq);
      if !Remove(t, obj, eq, cfg).1 {
        KeepNothingEqual(t.entries, obj, eq);
      }
    } else {
      var b := t.boundary;
      QuadrantsPartition(b, obj.pos);
      if Contains(NW(b), obj.pos) {
        DeleteViaKid(t, t.nw, obj, eq, cfg);
      } else if Contains(NE(b), obj.pos) {
        DeleteViaKid(t, t.ne, obj, eq, cfg);
      } else if Contains(SW(b), obj.pos) {
        DeleteViaKid(t, t.sw, obj, eq, cfg);
      } else {
        DeleteViaKid(t, t.se, obj, eq, cfg);
      }
    }
  }

  /** RemoveDeletesAll at an internal node, through the child `k` whose quadrant holds the position. */
  lemma {:induction false} DeleteViaKid(t: QTree, k: QTree, obj: GameObject, eq: (GameObject, GameObject) -> bool, cfg: Config)
    requires t.Node? && KidsInv(t, cfg) && Contains(k.boundary, obj.pos)
    requires k == t.nw || k == t.ne || k == t.sw || k == t.se
    requires forall e :: e in Entries(t) && eq(e, obj) ==> e.pos == obj.pos
    ensures Entries(Remove(t, obj, eq, cfg).0) == Keep(Entries(t), obj, eq)
    decreases t, 0
  {
    RemoveInKid(t, k, obj, eq, cfg);
    if Remove(k, obj, eq, cfg).1 {
      DeleteHit(t, k, obj, eq, cfg);
    } else {
      DeleteMiss(t, k, obj, eq, cfg);
    }
  }

  /** DeleteViaKid when the child removed something: the node is rebuilt and maybe merged. */
  lemma DeleteHit(t: QTree, k: QTree, obj: GameObject, eq: (GameObject, GameObject) -> bool, cfg: Config)
    requires t.Node? && KidsInv(t, cfg) && Contains(k.boundary, obj.pos)
    requires k == t.nw || k == t.ne || k == t.sw || k == t.se
    requires forall e :: e in Entries(t) && eq(e, obj) ==> e.pos == obj.pos
    requires Remove(k, obj, eq, cfg).1
    requires TreeInv(Remove(k, obj, eq, cfg).0, cfg) && Entries(Remove(k, obj, eq, cfg).0) == Keep(Entries(k), obj, eq)
    ensures Entries(Remove(t, obj, eq, cfg).0) == Keep(Entries(t), obj, eq)
  {
    var b := t.boundary;
    QuadrantsInside(b, obj.pos);
    QuadrantsPartition(b, obj.pos);
    NothingEqualElsewhere(t, t.nw, obj, eq, cfg);
    NothingEqualElsewhere(t, t.ne, obj, eq, cfg);
    NothingEqualElsewhere(t, t.sw, obj, eq, cfg);
    NothingEqualElsewhere(t, t.se, obj, eq, cfg);
    var k' := Remove(k, obj, eq, cfg).0;
    RemovePicks(t, obj, eq, cfg);
    if k == t.nw {
      DeleteThroughKid(t, t.(nw := k'), k', obj, eq, cfg);
    } else if k == t.ne {
      DeleteThroughKid(t, t.(ne := k'), k', obj, eq, cfg);
    } else if k == t.sw {
      DeleteThroughKid(t, t.(sw := k'), k', obj, eq, cfg);
    } else {
      DeleteThroughKid(t, t.(se := k'), k', obj, eq, cfg);
    }
  }

  /** DeleteViaKid when the child removed nothing: no entry anywhere was equal. */
  lemma DeleteMiss(t: QTree, k: QTree, obj: GameObject, eq: (GameObject, GameObject) -> bool, cfg: Config)
    requires t.Node? && KidsInv(t, cfg) && Contains(k.boundary, obj.pos)
    requires k == t.nw || k == t.ne || k == t.sw || k == t.se
    requires forall e :: e in Entries(t) && eq(e, obj) ==> e.pos == obj.pos
    requires !Remove(k, obj, eq, cfg).1 && Entries(Remove(k, obj, eq, cfg).0) == Keep(Entries(k), obj, eq)
    ensures Entries(Remove(t, obj, eq, cfg).0) == Keep(Entries(t), obj, eq)
  {
    var b := t.boundary;
    QuadrantsInside(b, obj.pos);
    QuadrantsPartition(b, obj.pos);
    NothingEqualElsewhere(t, t.nw, obj, eq, cfg);
    NothingEqualElsewhere(t, t.ne, obj, eq, cfg);
    NothingEqualElsewhere(t, t.sw, obj, eq, cfg);
    NothingEqualElsewhere(t, t.se, obj, eq, cfg);
    assert Keep(Entries(k), obj, eq) == Entries(k);
    assert Remove(t, obj, eq, cfg) == (t, false) by {
      RemovePicks(t, obj, eq, cfg);
    }
    KeepOfNode(t, obj, eq);
  }

  /** The recursive step of RemoveDeletesAll, for one child. */
  lemma {:induction false} RemoveInKid(t: QTree, k: QTree, obj: GameObject, eq: (GameObject, GameObject) -> bool, cfg: Config)
    requires t.Node? && KidsInv(t, cfg)
    requires k == t.nw || k == t.ne || k == t.sw || k == t.se
    requires forall e :: e in Entries(t) && eq(e, obj) ==> e.pos == obj.pos
    ensures TreeInv(Remove(k, obj, eq, cfg).0, cfg)
    ensures Entries(Remove(k, obj, eq, cfg).0) == Keep(Entries(k), obj, eq)
    decreases k, 2
  {
    assert forall e :: e in Entries(k) ==> e in Entries(t);
    RemoveCorrect(k, obj, eq, cfg);
    RemoveDeletesAll(k, obj, eq, cfg);
  }

  // ---------------------------------------------------------------------
  // Lemmas: what queryRange promises

  /** Pruning is safe: a subtree whose boundary misses the range holds no entry inside the range. */
  lemma PruneIsSafe(t: QTree, range: Boundary2D, cfg: Config)
    requires TreeInv(t, cfg) && !Intersects(t.boundary, range)
    ensures InRange(Entries(t), range) == []
  {
    EntriesInside(t, cfg);
    forall e | e in Entries(t)
      ensures !Contains(range, e.pos)
    {
      assert Contains(t.boundary, e.pos);
    }
    InRangeEmpty(Entries(t), range);
  }

  /**
   * On a tree that keeps the invariant, queryRange returns exactly the
   * stored entries inside the range, in NW, NE, SW, SE leaf order.
   */
  lemma {:induction false} QueryMatchesFilter(t: QTree, range: Boundary2D, cfg: Config)
    requires TreeInv(t, cfg)
    ensures Query(t, range) == InRange(Entries(t), range)
    decreases t
  {
    if !Intersects(t.boundary, range) {
      PruneIsSafe(t, range, cfg);
    } else if t.Node? {
      QueryMatchesFilter(t.nw, range, cfg);
      QueryMatchesFilter(t.ne, range, cfg);
      QueryMatchesFilter(t.sw, range, cfg);
      QueryMatchesFilter(t.se, range, cfg);
      var a, b, c, d := Entries(t.nw), Entries(t.ne), Entries(t.sw), Entries(t.se);
      InRangeAppend(a + b + c, d, range);
      InRangeAppend(a + b, c, range);
      InRangeAppend(a, b, range);
    }
  }
}
