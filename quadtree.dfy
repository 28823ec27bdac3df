/**
 * QuadTree<PoolSize>: the tree stored node by node in the slots of its own
 * TMemoryPool. Slot `s` of the pool owns `nodes[s]`; a child link is the
 * slot number of the child, and null is `None`. Each method is proved to
 * leave the node array holding the tree that the matching function of
 * QuadTreeSpec computes, and to take slots from, or give them back to,
 * the pool exactly as the source does.
 */
module QuadTrees {
  import opened Options
  import opened Points2D
  import opened Boundaries2D
  import opened MemoryPool
  import opened QuadTreeSpec

  /** TreeNode: the entry list, the boundary and the four child links. */
  datatype TreeNode = TreeNode(objects: seq<GameObject>, boundary: Boundary2D,
                               nw: Option<nat>, ne: Option<nat>, sw: Option<nat>, se: Option<nat>)

  /** A node with the given boundary, no entries and null children: what create_node_ leaves in a slot. */
  function EmptyNode(b: Boundary2D): TreeNode
  {
    TreeNode([], b, None, None, None, None)
  }

  /** Which slot each node of an abstract tree occupies. */
  datatype Slots =
    | SlotLeaf(at: nat)
    | SlotNode(at: nat, nw: Slots, ne: Slots, sw: Slots, se: Slots)

  datatype Quadrant = NWQ | NEQ | SWQ | SEQ

  /** The slots a layout occupies. */
  function FP(l: Slots): set<nat>
  {
    match l
    case SlotLeaf(at) => {at}
    case SlotNode(at, nw, ne, sw, se) => {at} + FP(nw) + FP(ne) + FP(sw) + FP(se)
  }

  /** No slot is used by two nodes. */
  ghost predicate Separate(l: Slots)
  {
    match l
    case SlotLeaf(_) => true
    case SlotNode(at, nw, ne, sw, se) =>
      && at !in FP(nw) && at !in FP(ne) && at !in FP(sw) && at !in FP(se)
      && FP(nw) !! FP(ne) && FP(nw) !! FP(sw) && FP(nw) !! FP(se)
      && FP(ne) !! FP(sw) && FP(ne) !! FP(se) && FP(sw) !! FP(se)
      && Separate(nw) && Separate(ne) && Separate(sw) && Separate(se)
  }

  /**
   * The node array `ns` holds tree `t` laid out as `l`: a leaf's slot holds
   * its entries and null children, an internal node's slot holds no
   * entries and links to its children's slots.
   */
  ghost predicate Rep(t: QTree, l: Slots, ns: seq<TreeNode>)
  {
    match t
    case Leaf(b, es) =>
      l.SlotLeaf? && l.at < |ns| && ns[l.at] == TreeNode(es, b, None, None, None, None)
    case Node(b, nw, ne, sw, se) =>
      && l.SlotNode? && l.at < |ns|
      && ns[l.at] == TreeNode([], b, Some(l.nw.at), Some(l.ne.at), Some(l.sw.at), Some(l.se.at))
      && Rep(nw, l.nw, ns) && Rep(ne, l.ne, ns) && Rep(sw, l.sw, ns) && Rep(se, l.se, ns)
  }

  function Child(t: QTree, q: Quadrant): QTree
    requires t.Node?
  {
    match q
    case NWQ => t.nw
    case NEQ => t.ne
    case SWQ => t.sw
    case SEQ => t.se
  }

  function WithChild(t: QTree, q: Quadrant, c: QTree): QTree
    requires t.Node?
  {
    match q
    case NWQ => t.(nw := c)
    case NEQ => t.(ne := c)
    case SWQ => t.(sw := c)
    case SEQ => t.(se := c)
  }

  function ChildSlots(l: Slots, q: Quadrant): Slots
    requires l.SlotNode?
  {
    match q
    case NWQ => l.nw
    case NEQ => l.ne
    case SWQ => l.sw
    case SEQ => l.se
  }

  function WithChildSlots(l: Slots, q: Quadrant, c: Slots): Slots
    requires l.SlotNode?
  {
    match q
    case NWQ => l.(nw := c)
    case NEQ => l.(ne := c)
    case SWQ => l.(sw := c)
    case SEQ => l.(se := c)
  }

  /** Every slot of a represented tree is inside the node array. */
  lemma {:induction false} RepBounds(t: QTree, l: Slots, ns: seq<TreeNode>)
    requires Rep(t, l, ns)
    ensures forall s :: s in FP(l) ==> s < |ns|
  {
    match t
    case Leaf(_, _) =>
    case Node(_, nw, ne, sw, se) =>
      RepBounds(nw, l.nw, ns);
      RepBounds(ne, l.ne, ns);
      RepBounds(sw, l.sw, ns);
      RepBounds(se, l.se, ns);
  }

  /** The number of nodes copy_tree_ creates below a node of `t` for its child in quadrant `q`. */
  ghost function Copied(t: QTree, q: Quadrant): nat
  {
    if t.Node? then NodeCount(Child(t, q)) else 0
  }

  lemma CopiedSum(t: QTree)
    ensures Copied(t, NWQ) + Copied(t, NEQ) + Copied(t, SWQ) + Copied(t, SEQ) == NodeCount(t) - 1
  {
  }

  /** `ns'` differs from `ns` at most at slot `q` and the slots of `added`. */
  ghost predicate Outside(ns: seq<TreeNode>, ns': seq<TreeNode>, q: nat, added: set<nat>)
  {
    |ns'| == |ns| && forall s :: 0 <= s < |ns| && s != q && s !in added ==> ns'[s] == ns[s]
  }

  /**
   * The copies of the four children of `t`, made one after the other into
   * slots that were free before, together with the copy of the node
   * itself at `l.at`, lay out `t`.
   */
  lemma KidsCopied(t: QTree, l: Slots, n0: TreeNode, v0: set<nat>, v1: set<nat>, v2: set<nat>, v3: set<nat>, v4: set<nat>,
                    ns1: seq<TreeNode>, ns2: seq<TreeNode>, ns3: seq<TreeNode>, ns4: seq<TreeNode>)
    requires t.Node? && l.SlotNode? && l.at in v0 && l.at < |ns1|
    requires n0 == TreeNode([], t.boundary, None, None, None, None)
    requires Rep(Child(t, NWQ), l.nw, ns1) && Separate(l.nw) && FP(l.nw) !! v0 && v1 == v0 + FP(l.nw)
    requires Rep(Child(t, NEQ), l.ne, ns2) && Separate(l.ne) && FP(l.ne) !! v1 && v2 == v1 + FP(l.ne)
    requires Rep(Child(t, SWQ), l.sw, ns3) && Separate(l.sw) && FP(l.sw) !! v2 && v3 == v2 + FP(l.sw)
    requires Rep(Child(t, SEQ), l.se, ns4) && Separate(l.se) && FP(l.se) !! v3 && v4 == v3 + FP(l.se)
    requires Outside(ns1, ns2, l.at, FP(l.ne)) && Outside(ns2, ns3, l.at, FP(l.sw)) && Outside(ns3, ns4, l.at, FP(l.se))
    requires ns1[l.at] == WithLink(n0, NWQ, Some(l.nw.at)) && ns2[l.at] == WithLink(ns1[l.at], NEQ, Some(l.ne.at))
    requires ns3[l.at] == WithLink(ns2[l.at], SWQ, Some(l.sw.at)) && ns4[l.at] == WithLink(ns3[l.at], SEQ, Some(l.se.at))
    ensures Rep(t, l, ns4) && Separate(l)
    ensures FP(l) - {l.at} !! v0 && v4 == v0 + (FP(l) - {l.at})
  {
    KeepRep(t.nw, l.nw, ns1, ns2, l.at, v1, FP(l.ne));
    KeepRep(t.nw, l.nw, ns2, ns3, l.at, v2, FP(l.sw));
    KeepRep(t.nw, l.nw, ns3, ns4, l.at, v3, FP(l.se));
    KeepRep(t.ne, l.ne, ns2, ns3, l.at, v2, FP(l.sw));
    KeepRep(t.ne, l.ne, ns3, ns4, l.at, v3, FP(l.se));
    KeepRep(t.sw, l.sw, ns3, ns4, l.at, v3, FP(l.se));
  }

  /**
   * A subtree laid out inside the live slots keeps its representation
   * across a step that writes only fresh slots and the parent slot `q`.
   */
  lemma KeepRep(t: QTree, l: Slots, ns: seq<TreeNode>, ns': seq<TreeNode>, q: nat, live: set<nat>, added: set<nat>)
    requires Rep(t, l, ns) && FP(l) <= live && added !! live && q !in FP(l) && |ns'| == |ns|
    requires forall s :: 0 <= s < |ns| && s != q && s !in added ==> ns'[s] == ns[s]
    ensures Rep(t, l, ns')
  {
    RepFrame(t, l, ns, ns');
  }

  /** A represented tree survives every change outside its slots. */
  lemma {:induction false} RepFrame(t: QTree, l: Slots, ns: seq<TreeNode>, ns': seq<TreeNode>)
    requires Rep(t, l, ns) && |ns'| == |ns|
    requires forall s :: 0 <= s < |ns| && s in FP(l) ==> ns'[s] == ns[s]
    ensures Rep(t, l, ns')
  {
    match t
    case Leaf(_, _) =>
    case Node(_, nw, ne, sw, se) =>
      RepFrame(nw, l.nw, ns, ns');
      RepFrame(ne, l.ne, ns, ns');
      RepFrame(sw, l.sw, ns, ns');
      RepFrame(se, l.se, ns, ns');
  }

  /** is_leaf_: a stored node is a leaf exactly when its NW link is null. */
  lemma LeafIffNoNW(t: QTree, l: Slots, ns: seq<TreeNode>)
    requires Rep(t, l, ns)
    ensures l.at < |ns| && (ns[l.at].nw.None? <==> t.Leaf?)
  {
  }

  /** A represented layout without shared slots occupies one slot per node. */
  lemma {:induction false} FootprintCount(t: QTree, l: Slots, ns: seq<TreeNode>)
    requires Rep(t, l, ns) && Separate(l)
    ensures |FP(l)| == NodeCount(t)
  {
    match t
    case Leaf(_, _) =>
    case Node(_, nw, ne, sw, se) =>
      FootprintCount(nw, l.nw, ns);
      FootprintCount(ne, l.ne, ns);
      FootprintCount(sw, l.sw, ns);
      FootprintCount(se, l.se, ns);
      SeparateSize(l);
  }

  /** The slots of an internal node: its own and its children's, all different. */
  lemma SeparateSize(l: Slots)
    requires l.SlotNode? && Separate(l)
    ensures |FP(l)| == 1 + |FP(l.nw)| + |FP(l.ne)| + |FP(l.sw)| + |FP(l.se)|
  {
    var a, b, c, d := FP(l.nw), FP(l.ne), FP(l.sw), FP(l.se);
    DisjointUnionSize(a, b);
    DisjointUnionSize(a + b, c);
    DisjointUnionSize(a + b + c, d);
    DisjointUnionSize({l.at}, a + b + c + d);
    assert FP(l) == {l.at} + (a + b + c + d);
  }

  lemma DisjointUnionSize(a: set<nat>, b: set<nat>)
    requires a !! b
    ensures |a + b| == |a| + |b|
  {
    assert a * b == {};
  }

  /**
   * Putting back, in place of one child, a tree that took its slots only
   * from the child's own slots and from slots that were not live keeps the
   * whole tree represented and without shared slots.
   */
  lemma ReplaceChild(t: QTree, l: Slots, q: Quadrant, c': QTree, lc': Slots,
                     ns: seq<TreeNode>, ns': seq<TreeNode>, live: set<nat>)
    requires t.Node? && Rep(t, l, ns) && Separate(l) && FP(l) <= live && |ns'| == |ns|
    requires Rep(c', lc', ns') && Separate(lc') && lc'.at == ChildSlots(l, q).at
    requires FP(lc') - FP(ChildSlots(l, q)) !! live
    requires forall s :: 0 <= s < |ns| && s !in FP(ChildSlots(l, q)) && s !in FP(lc') ==> ns'[s] == ns[s]
    ensures l.SlotNode?
    ensures Rep(WithChild(t, q, c'), WithChildSlots(l, q, lc'), ns')
    ensures Separate(WithChildSlots(l, q, lc'))
    ensures FP(WithChildSlots(l, q, lc')) == (FP(l) - FP(ChildSlots(l, q))) + FP(lc')
  {
    ReplaceChildSlots(l, q, lc', live);
    RepBounds(t, l, ns);
    assert ns'[l.at] == ns[l.at];
    if q != NWQ { SiblingFrame(t, l, q, NWQ, lc', ns, ns', live); }
    if q != NEQ { SiblingFrame(t, l, q, NEQ, lc', ns, ns', live); }
    if q != SWQ { SiblingFrame(t, l, q, SWQ, lc', ns, ns', live); }
    if q != SEQ { SiblingFrame(t, l, q, SEQ, lc', ns, ns', live); }
  }

  /** ReplaceChild for a child that grew: the node grows by what the child gained. */
  lemma ChildGrew(t: QTree, l: Slots, q: Quadrant, c': QTree, lc': Slots,
                  ns: seq<TreeNode>, ns': seq<TreeNode>, live: set<nat>, live': set<nat>)
    requires t.Node? && Rep(t, l, ns) && Separate(l) && FP(l) <= live && |ns'| == |ns|
    requires Rep(c', lc', ns') && Separate(lc') && lc'.at == ChildSlots(l, q).at
    requires Grew(ChildSlots(l, q), lc', live, live')
    requires forall s :: 0 <= s < |ns| && s !in FP(lc') ==> ns'[s] == ns[s]
    ensures l.SlotNode?
    ensures Rep(WithChild(t, q, c'), WithChildSlots(l, q, lc'), ns')
    ensures Separate(WithChildSlots(l, q, lc')) && WithChildSlots(l, q, lc').at == l.at
    ensures WithChildSlots(l, q, lc').SlotNode?
    ensures Grew(l, WithChildSlots(l, q, lc'), live, live')
    ensures forall s :: 0 <= s < |ns| && s !in FP(WithChildSlots(l, q, lc')) ==> ns'[s] == ns[s]
  {
    ReplaceChild(t, l, q, c', lc', ns, ns', live);
    ChildFacts(t, l, q, ns, Point2D(1.0, 1.0));
    GrewSets(FP(l), FP(ChildSlots(l, q)), FP(lc'), live, live');
  }

  lemma GrewSets(whole: set<nat>, part: set<nat>, part': set<nat>, live: set<nat>, live': set<nat>)
    requires part <= whole && whole <= live && part <= part'
    requires part' - part !! live && live' == live + (part' - part)
    ensures whole <= (whole - part) + part'
    ensures ((whole - part) + part') - whole !! live
    ensures live' == live + (((whole - part) + part') - whole)
  {
  }

  /** ReplaceChild for a child whose layout shrank: the whole layout shrinks with it. */
  lemma ChildShrank(t: QTree, l: Slots, q: Quadrant, c': QTree, lc': Slots,
                    ns: seq<TreeNode>, ns': seq<TreeNode>, live: set<nat>, live': set<nat>)
    requires t.Node? && Rep(t, l, ns) && Separate(l) && FP(l) <= live && |ns'| == |ns|
    requires Rep(c', lc', ns') && Separate(lc') && lc'.at == ChildSlots(l, q).at
    requires Shrank(ChildSlots(l, q), lc', live, live')
    requires forall s :: 0 <= s < |ns| && s !in FP(ChildSlots(l, q)) ==> ns'[s] == ns[s]
    ensures l.SlotNode?
    ensures Rep(WithChild(t, q, c'), WithChildSlots(l, q, lc'), ns')
    ensures Separate(WithChildSlots(l, q, lc')) && WithChildSlots(l, q, lc').at == l.at
    ensures Shrank(l, WithChildSlots(l, q, lc'), live, live')
    ensures FP(WithChildSlots(l, q, lc')) <= live'
  {
    ReplaceChild(t, l, q, c', lc', ns, ns', live);
    ChildFacts(t, l, q, ns, Point2D(1.0, 1.0));
    ShrankSets(FP(l), FP(ChildSlots(l, q)), FP(lc'), live, live');
  }

  /** The set algebra behind ChildShrank: a shrinking part shrinks the whole by as much. */
  lemma ShrankSets(whole: set<nat>, part: set<nat>, part': set<nat>, live: set<nat>, live': set<nat>)
    requires part <= whole <= live && part' <= part && live' == live - (part - part')
    ensures whole - ((whole - part) + part') == part - part'
    ensures (whole - part) + part' <= live'
  {
  }

  /** The children other than the replaced one keep their slots and stay represented. */
  lemma SiblingFrame(t: QTree, l: Slots, q: Quadrant, q': Quadrant, lc': Slots,
                     ns: seq<TreeNode>, ns': seq<TreeNode>, live: set<nat>)
    requires t.Node? && Rep(t, l, ns) && Separate(l) && FP(l) <= live && |ns'| == |ns| && q != q'
    requires FP(lc') - FP(ChildSlots(l, q)) !! live
    requires forall s :: 0 <= s < |ns| && s !in FP(ChildSlots(l, q)) && s !in FP(lc') ==> ns'[s] == ns[s]
    ensures Rep(Child(t, q'), ChildSlots(l, q'), ns')
  {
    assert FP(ChildSlots(l, q')) <= live;
    assert FP(ChildSlots(l, q')) !! FP(ChildSlots(l, q)) by {
      match q
      case NWQ =>
      case NEQ =>
      case SWQ =>
      case SEQ =>
    }
    RepFrame(Child(t, q'), ChildSlots(l, q'), ns, ns');
  }

  /** The slot part of ReplaceChild. */
  lemma ReplaceChildSlots(l: Slots, q: Quadrant, lc': Slots, live: set<nat>)
    requires l.SlotNode? && Separate(l) && FP(l) <= live
    requires Separate(lc') && FP(lc') - FP(ChildSlots(l, q)) !! live
    ensures Separate(WithChildSlots(l, q, lc'))
    ensures FP(WithChildSlots(l, q, lc')) == (FP(l) - FP(ChildSlots(l, q))) + FP(lc')
  {
    match q
    case NWQ =>
    case NEQ =>
    case SWQ =>
    case SEQ =>
  }


  /** The layout of an internal node whose four children are leaves: five distinct slots. */
  lemma LeafKids(t: QTree, l: Slots, ns: seq<TreeNode>)
    requires Rep(t, l, ns) && Separate(l)
    requires t.Node? && t.nw.Leaf? && t.ne.Leaf? && t.sw.Leaf? && t.se.Leaf?
    ensures l.SlotNode? && l.nw.SlotLeaf? && l.ne.SlotLeaf? && l.sw.SlotLeaf? && l.se.SlotLeaf?
    ensures FP(l) == {l.at, l.nw.at, l.ne.at, l.sw.at, l.se.at}
    ensures |{l.at, l.nw.at, l.ne.at, l.sw.at, l.se.at}| == 5
    ensures l.at < |ns| && ns[l.at] == TreeNode([], t.boundary, Some(l.nw.at), Some(l.ne.at), Some(l.sw.at), Some(l.se.at))
    ensures l.nw.at < |ns| && ns[l.nw.at].objects == Objects(t.nw)
    ensures l.ne.at < |ns| && ns[l.ne.at].objects == Objects(t.ne)
    ensures l.sw.at < |ns| && ns[l.sw.at].objects == Objects(t.sw)
    ensures l.se.at < |ns| && ns[l.se.at].objects == Objects(t.se)
  {
  }

  /** What unsubdivide_ turns an internal node with four leaf children into. */
  function Merged(t: QTree): QTree
    requires t.Node?
  {
    Leaf(t.boundary, Objects(t) + Objects(t.nw) + Objects(t.ne) + Objects(t.sw) + Objects(t.se))
  }

  /**
   * Once the node at `l.at` holds its own entries followed by those of its
   * four leaf children, with null links, it represents the merged leaf; the
   * four child slots were all the layout had besides `l.at`.
   */
  lemma MergedRep(t: QTree, l: Slots, ns: seq<TreeNode>, ns': seq<TreeNode>)
    requires Rep(t, l, ns) && Separate(l)
    requires t.Node? && t.nw.Leaf? && t.ne.Leaf? && t.sw.Leaf? && t.se.Leaf?
    requires l.SlotNode? && l.at < |ns'| && l.at < |ns|
    requires l.nw.at < |ns| && l.ne.at < |ns| && l.sw.at < |ns| && l.se.at < |ns|
    requires ns'[l.at] == ns[l.at].(objects := ns[l.at].objects + ns[l.nw.at].objects + ns[l.ne.at].objects
                                                + ns[l.sw.at].objects + ns[l.se.at].objects,
                                    nw := None, ne := None, sw := None, se := None)
    ensures Rep(Merged(t), SlotLeaf(l.at), ns')
    ensures FP(l) - {l.at} == {l.nw.at, l.ne.at, l.sw.at, l.se.at}
    ensures NodeCount(t) == NodeCount(Merged(t)) + 4
  {
    LeafKids(t, l, ns);
  }

  /** Facts about one child of a represented internal node. */
  lemma ChildFacts(t: QTree, l: Slots, q: Quadrant, ns: seq<TreeNode>, minQuad: Point2D)
    requires t.Node? && Rep(t, l, ns) && Separate(l)
    ensures l.SlotNode?
    ensures Rep(Child(t, q), ChildSlots(l, q), ns) && Separate(ChildSlots(l, q))
    ensures l.at !in FP(ChildSlots(l, q)) && FP(ChildSlots(l, q)) <= FP(l)
    ensures Rank(Child(t, q), minQuad) < Rank(t, minQuad)
    ensures NodeCount(Child(t, q)) < NodeCount(t)
  {
    match q
    case NWQ =>
    case NEQ =>
    case SWQ =>
    case SEQ =>
  }

  /** Replacing a child by one of no higher rank; the node count changes by the child's. */
  lemma WithChildMeasures(t: QTree, q: Quadrant, c': QTree, minQuad: Point2D)
    requires t.Node?
    ensures Rank(c', minQuad) <= Rank(Child(t, q), minQuad) ==> Rank(WithChild(t, q, c'), minQuad) <= Rank(t, minQuad)
    ensures NodeCount(WithChild(t, q, c')) + NodeCount(Child(t, q)) == NodeCount(t) + NodeCount(c')
    ensures WithChild(t, q, c').boundary == t.boundary && WithChild(t, q, c').Node?
  {
    match q
    case NWQ =>
    case NEQ =>
    case SWQ =>
    case SEQ =>
  }

  /** The order insert_ tries the children in. */
  function Order(q: Quadrant): nat
  {
    match q
    case NWQ => 0
    case NEQ => 1
    case SWQ => 2
    case SEQ => 3
  }

  function Next(q: Quadrant): Quadrant
    requires q != SEQ
  {
    match q
    case NWQ => NEQ
    case NEQ => SWQ
    case SWQ => SEQ
  }

  lemma NextFollows(q: Quadrant)
    requires q != SEQ
    ensures Order(Next(q)) == Order(q) + 1
  {
  }

  /** One round of the loop of subdivide_, as OfferFrom. */
  lemma ReinsertOffers(es: seq<GameObject>, i: nat, n: QTree, cfg: Config)
    requires 0.0 < cfg.minQuad.x && n.Node? && i < |es|
    ensures ReinsertAll(es[i..], n, cfg) == ReinsertAll(es[i + 1..], OfferFrom(n, NWQ, es[i], cfg), cfg)
    ensures NodeCount(OfferFrom(n, NWQ, es[i], cfg)) <= NodeCount(ReinsertAll(es[i..], n, cfg))
  {
    ReinsertStep(es[i..], n, cfg);
    assert es[i..][1..] == es[i + 1..];
    OfferFromStart(n, es[i], cfg);
  }

  /** An accepted subdivide_: the entries offered to the four empty quadrants, at no higher rank. */
  lemma SubdivideUnfolds(t: QTree, cfg: Config)
    requires 0.0 < cfg.minQuad.x && t.Leaf? && CanSubdivide(t.boundary, cfg.minQuad)
    ensures Subdivide(t, cfg) == (ReinsertAll(t.entries, Split(t.boundary), cfg), true)
    ensures Rank(Split(t.boundary), cfg.minQuad) <= Rank(t, cfg.minQuad)
  {
    var b := t.boundary;
    LevelDrops(b, cfg.minQuad, NW(b));
    LevelDrops(b, cfg.minQuad, NE(b));
    LevelDrops(b, cfg.minQuad, SW(b));
    LevelDrops(b, cfg.minQuad, SE(b));
  }

  /** Four slots that were not live, hung under a live leaf slot. */
  lemma FreshChildren(l: Slots, lc: Slots, live0: set<nat>, live1: set<nat>)
    requires l.SlotLeaf? && lc.SlotNode? && lc.at == l.at && l.at in live0
    requires lc.nw.SlotLeaf? && lc.ne.SlotLeaf? && lc.sw.SlotLeaf? && lc.se.SlotLeaf?
    requires lc.nw.at !in live0 && lc.ne.at !in live0 + {lc.nw.at}
    requires lc.sw.at !in live0 + {lc.nw.at, lc.ne.at} && lc.se.at !in live0 + {lc.nw.at, lc.ne.at, lc.sw.at}
    requires live1 == live0 + {lc.nw.at, lc.ne.at, lc.sw.at, lc.se.at}
    ensures Separate(lc) && Grew(l, lc, live0, live1)
    ensures FP(lc) == {lc.at, lc.nw.at, lc.ne.at, lc.sw.at, lc.se.at}
  {
  }

  /** The four fresh leaves and the emptied parent slot hold Split(b). */
  lemma SplitRep(b: Boundary2D, lc: Slots, ns: seq<TreeNode>, x: TreeNode)
    requires lc.SlotNode? && Separate(lc) && lc.at < |ns|
    requires lc.nw.SlotLeaf? && lc.ne.SlotLeaf? && lc.sw.SlotLeaf? && lc.se.SlotLeaf?
    requires Rep(Leaf(NW(b), []), lc.nw, ns) && Rep(Leaf(NE(b), []), lc.ne, ns)
    requires Rep(Leaf(SW(b), []), lc.sw, ns) && Rep(Leaf(SE(b), []), lc.se, ns)
    requires x == TreeNode([], b, Some(lc.nw.at), Some(lc.ne.at), Some(lc.sw.at), Some(lc.se.at))
    ensures Rep(Split(b), lc, ns[lc.at := x])
  {
  }

  /** The child link of a stored node in quadrant `q`. */
  function Link(n: TreeNode, q: Quadrant): Option<nat>
  {
    match q
    case NWQ => n.nw
    case NEQ => n.ne
    case SWQ => n.sw
    case SEQ => n.se
  }

  function WithLink(n: TreeNode, q: Quadrant, c: Option<nat>): TreeNode
  {
    match q
    case NWQ => n.(nw := c)
    case NEQ => n.(ne := c)
    case SWQ => n.(sw := c)
    case SEQ => n.(se := c)
  }

  /** The tail of InsertIntoChildren from quadrant `q` on. */
  ghost function InsertFrom(t: QTree, q: Quadrant, obj: GameObject, cfg: Config): (r: (QTree, bool))
    requires 0.0 < cfg.minQuad.x && t.Node?
    ensures NodeCount(WithChild(t, q, Insert(Child(t, q), obj, cfg).0)) <= NodeCount(r.0)
    ensures NodeCount(t) <= NodeCount(r.0)
    decreases 3 - Order(q)
  {
    var a := Insert(Child(t, q), obj, cfg);
    WithChildMeasures(t, q, a.0, cfg.minQuad);
    if a.1 || q == SEQ then (WithChild(t, q, a.0), a.1)
    else InsertFrom(WithChild(t, q, a.0), Next(q), obj, cfg)
  }

  /** The loop body of subdivide_ from quadrant `q` on: every child offered the entry. */
  ghost function OfferFrom(t: QTree, q: Quadrant, obj: GameObject, cfg: Config): (r: QTree)
    requires 0.0 < cfg.minQuad.x && t.Node?
    ensures NodeCount(WithChild(t, q, Insert(Child(t, q), obj, cfg).0)) <= NodeCount(r)
    ensures r.Node? && Rank(r, cfg.minQuad) <= Rank(t, cfg.minQuad)
    decreases 3 - Order(q)
  {
    var t' := WithChild(t, q, Insert(Child(t, q), obj, cfg).0);
    WithChildMeasures(t, q, Insert(Child(t, q), obj, cfg).0, cfg.minQuad);
    if q == SEQ then t' else OfferFrom(t', Next(q), obj, cfg)
  }

  lemma OfferFromStart(t: QTree, obj: GameObject, cfg: Config)
    requires 0.0 < cfg.minQuad.x && t.Node?
    ensures OfferFrom(t, NWQ, obj, cfg)
         == Node(t.boundary, Insert(t.nw, obj, cfg).0, Insert(t.ne, obj, cfg).0,
                 Insert(t.sw, obj, cfg).0, Insert(t.se, obj, cfg).0)
  {
    var t1 := WithChild(t, NWQ, Insert(t.nw, obj, cfg).0);
    var t2 := WithChild(t1, NEQ, Insert(t.ne, obj, cfg).0);
    var t3 := WithChild(t2, SWQ, Insert(t.sw, obj, cfg).0);
    assert OfferFrom(t3, SEQ, obj, cfg) == WithChild(t3, SEQ, Insert(t.se, obj, cfg).0);
  }

  lemma InsertFromStart(t: QTree, obj: GameObject, cfg: Config)
    requires 0.0 < cfg.minQuad.x && t.Node?
    ensures InsertIntoChildren(t, obj, cfg) == InsertFrom(t, NWQ, obj, cfg)
  {
    var a := Insert(t.nw, obj, cfg);
    assert Child(t, NWQ) == t.nw && WithChild(t, NWQ, a.0) == t.(nw := a.0);
    if !a.1 {
      InsertFromNE(t, t.(nw := a.0), obj, cfg);
    }
  }

  /** NW refused: the search goes on at NE of `t1`, the node with the new NW. */
  lemma InsertFromNE(t: QTree, t1: QTree, obj: GameObject, cfg: Config)
    requires 0.0 < cfg.minQuad.x && t.Node? && !Insert(t.nw, obj, cfg).1
    requires t1 == t.(nw := Insert(t.nw, obj, cfg).0)
    ensures InsertIntoChildren(t, obj, cfg) == InsertFrom(t1, NEQ, obj, cfg)
  {
    var b := Insert(t.ne, obj, cfg);
    assert Child(t1, NEQ) == t.ne && WithChild(t1, NEQ, b.0) == t1.(ne := b.0);
    if !b.1 {
      InsertFromSW(t, t1.(ne := b.0), obj, cfg);
    }
  }

  lemma InsertFromSW(t: QTree, t2: QTree, obj: GameObject, cfg: Config)
    requires 0.0 < cfg.minQuad.x && t.Node? && !Insert(t.nw, obj, cfg).1 && !Insert(t.ne, obj, cfg).1
    requires t2 == t.(nw := Insert(t.nw, obj, cfg).0, ne := Insert(t.ne, obj, cfg).0)
    ensures InsertIntoChildren(t, obj, cfg) == InsertFrom(t2, SWQ, obj, cfg)
  {
    var c := Insert(t.sw, obj, cfg);
    assert Child(t2, SWQ) == t.sw && WithChild(t2, SWQ, c.0) == t2.(sw := c.0);
    if !c.1 {
      InsertFromSE(t, t2.(sw := c.0), obj, cfg);
    }
  }

  lemma InsertFromSE(t: QTree, t3: QTree, obj: GameObject, cfg: Config)
    requires 0.0 < cfg.minQuad.x && t.Node?
    requires !Insert(t.nw, obj, cfg).1 && !Insert(t.ne, obj, cfg).1 && !Insert(t.sw, obj, cfg).1
    requires t3 == t.(nw := Insert(t.nw, obj, cfg).0, ne := Insert(t.ne, obj, cfg).0, sw := Insert(t.sw, obj, cfg).0)
    ensures InsertIntoChildren(t, obj, cfg) == InsertFrom(t3, SEQ, obj, cfg)
  {
    var d := Insert(t.se, obj, cfg);
    InsertFromLast(t3, obj, cfg);
    assert InsertIntoChildren(t, obj, cfg) == (t3.(se := d.0), d.1);
  }

  /** At SE the search ends: the result is whatever SE's insert gives. */
  lemma InsertFromLast(t: QTree, obj: GameObject, cfg: Config)
    requires 0.0 < cfg.minQuad.x && t.Node?
    ensures InsertFrom(t, SEQ, obj, cfg) == (t.(se := Insert(t.se, obj, cfg).0), Insert(t.se, obj, cfg).1)
  {
    var d := Insert(t.se, obj, cfg);
    assert Child(t, SEQ) == t.se && WithChild(t, SEQ, d.0) == t.(se := d.0);
  }

  /** The tail of Remove at an internal node from quadrant `q` on. */
  ghost function RemoveFrom(t: QTree, q: Quadrant, obj: GameObject, eq: (GameObject, GameObject) -> bool, cfg: Config): (QTree, bool)
    requires t.Node?
    decreases 3 - Order(q)
  {
    var a := Remove(Child(t, q), obj, eq, cfg);
    if a.1 then (Unsubdivide(WithChild(t, q, a.0), cfg), true)
    else if q == SEQ then (t, false)
    else RemoveFrom(t, Next(q), obj, eq, cfg)
  }

  lemma RemoveFromStart(t: QTree, obj: GameObject, eq: (GameObject, GameObject) -> bool, cfg: Config)
    requires t.Node? && Contains(t.boundary, obj.pos)
    ensures Remove(t, obj, eq, cfg) == RemoveFrom(t, NWQ, obj, eq, cfg)
  {
    if Remove(t.nw, obj, eq, cfg).1 {
      RemoveHitsNW(t, obj, eq, cfg);
    } else if Remove(t.ne, obj, eq, cfg).1 {
      RemoveHitsNE(t, obj, eq, cfg);
    } else if Remove(t.sw, obj, eq, cfg).1 {
      RemoveHitsSW(t, obj, eq, cfg);
    } else {
      RemoveReachesSE(t, obj, eq, cfg);
    }
  }

  lemma RemoveHitsNW(t: QTree, obj: GameObject, eq: (GameObject, GameObject) -> bool, cfg: Config)
    requires t.Node? && Contains(t.boundary, obj.pos) && Remove(t.nw, obj, eq, cfg).1
    ensures Remove(t, obj, eq, cfg) == RemoveFrom(t, NWQ, obj, eq, cfg)
  {
    var a := Remove(t.nw, obj, eq, cfg);
    assert Remove(t, obj, eq, cfg) == (Unsubdivide(t.(nw := a.0), cfg), true);
  }

  lemma RemoveHitsNE(t: QTree, obj: GameObject, eq: (GameObject, GameObject) -> bool, cfg: Config)
    requires t.Node? && Contains(t.boundary, obj.pos)
    requires !Remove(t.nw, obj, eq, cfg).1 && Remove(t.ne, obj, eq, cfg).1
    ensures Remove(t, obj, eq, cfg) == RemoveFrom(t, NWQ, obj, eq, cfg)
  {
    var b := Remove(t.ne, obj, eq, cfg);
    assert Remove(t, obj, eq, cfg) == (Unsubdivide(t.(ne := b.0), cfg), true);
    assert RemoveFrom(t, NWQ, obj, eq, cfg) == RemoveFrom(t, NEQ, obj, eq, cfg);
  }

  lemma RemoveHitsSW(t: QTree, obj: GameObject, eq: (GameObject, GameObject) -> bool, cfg: Config)
    requires t.Node? && Contains(t.boundary, obj.pos)
    requires !Remove(t.nw, obj, eq, cfg).1 && !Remove(t.ne, obj, eq, cfg).1 && Remove(t.sw, obj, eq, cfg).1
    ensures Remove(t, obj, eq, cfg) == RemoveFrom(t, NWQ, obj, eq, cfg)
  {
    var c := Remove(t.sw, obj, eq, cfg);
    assert Remove(t, obj, eq, cfg) == (Unsubdivide(t.(sw := c.0), cfg), true);
    assert RemoveFrom(t, NEQ, obj, eq, cfg) == RemoveFrom(t, SWQ, obj, eq, cfg);
    assert RemoveFrom(t, NWQ, obj, eq, cfg) == RemoveFrom(t, NEQ, obj, eq, cfg);
  }

  lemma RemoveReachesSE(t: QTree, obj: GameObject, eq: (GameObject, GameObject) -> bool, cfg: Config)
    requires t.Node? && Contains(t.boundary, obj.pos)
    requires !Remove(t.nw, obj, eq, cfg).1 && !Remove(t.ne, obj, eq, cfg).1 && !Remove(t.sw, obj, eq, cfg).1
    ensures Remove(t, obj, eq, cfg) == RemoveFrom(t, NWQ, obj, eq, cfg)
  {
    RemoveSkipsToSE(t, obj, eq, cfg);
    RemoveAtSE(t, obj, eq, cfg);
  }

  lemma RemoveAtSE(t: QTree, obj: GameObject, eq: (GameObject, GameObject) -> bool, cfg: Config)
    requires t.Node? && Contains(t.boundary, obj.pos)
    requires !Remove(t.nw, obj, eq, cfg).1 && !Remove(t.ne, obj, eq, cfg).1 && !Remove(t.sw, obj, eq, cfg).1
    ensures Remove(t, obj, eq, cfg) == RemoveFrom(t, SEQ, obj, eq, cfg)
  {
    RemoveReachesLast(t, obj, eq, cfg);
    RemoveFromLast(t, obj, eq, cfg);
  }

  /** What remove_ does once NW, NE and SW removed nothing: SE decides. */
  ghost function AtLast(t: QTree, obj: GameObject, eq: (GameObject, GameObject) -> bool, cfg: Config): (QTree, bool)
    requires t.Node?
  {
    var d := Remove(t.se, obj, eq, cfg);
    if d.1 then (Unsubdivide(t.(se := d.0), cfg), true) else (t, false)
  }

  lemma RemoveReachesLast(t: QTree, obj: GameObject, eq: (GameObject, GameObject) -> bool, cfg: Config)
    requires t.Node? && Contains(t.boundary, obj.pos)
    requires !Remove(t.nw, obj, eq, cfg).1 && !Remove(t.ne, obj, eq, cfg).1 && !Remove(t.sw, obj, eq, cfg).1
    ensures Remove(t, obj, eq, cfg) == AtLast(t, obj, eq, cfg)
  {
  }

  lemma RemoveFromLast(t: QTree, obj: GameObject, eq: (GameObject, GameObject) -> bool, cfg: Config)
    requires t.Node?
    ensures RemoveFrom(t, SEQ, obj, eq, cfg) == AtLast(t, obj, eq, cfg)
  {
    var d := Remove(t.se, obj, eq, cfg);
    assert Child(t, SEQ) == t.se && WithChild(t, SEQ, d.0) == t.(se := d.0);
  }

  /** With nothing removed from NW, NE and SW, the search goes on at SE. */
  lemma RemoveSkipsToSE(t: QTree, obj: GameObject, eq: (GameObject, GameObject) -> bool, cfg: Config)
    requires t.Node?
    requires !Remove(t.nw, obj, eq, cfg).1 && !Remove(t.ne, obj, eq, cfg).1 && !Remove(t.sw, obj, eq, cfg).1
    ensures RemoveFrom(t, NWQ, obj, eq, cfg) == RemoveFrom(t, SEQ, obj, eq, cfg)
  {
    assert Child(t, NWQ) == t.nw && Child(t, NEQ) == t.ne && Child(t, SWQ) == t.sw;
    RemoveFromSkips(t, NWQ, obj, eq, cfg);
    RemoveFromSkips(t, NEQ, obj, eq, cfg);
    RemoveFromSkips(t, SWQ, obj, eq, cfg);
  }

  /** A child that removes nothing passes the search on to the next quadrant. */
  lemma RemoveFromSkips(t: QTree, q: Quadrant, obj: GameObject, eq: (GameObject, GameObject) -> bool, cfg: Config)
    requires t.Node? && q != SEQ && !Remove(Child(t, q), obj, eq, cfg).1
    ensures RemoveFrom(t, q, obj, eq, cfg) == RemoveFrom(t, Next(q), obj, eq, cfg)
  {
  }

  /**
   * Under the invariant every internal child holds more than capacity_
   * entries, so a node holding at most capacity_ entries has four leaf
   * children: unsubdivide_ testing only NW loses no grandchildren.
   */
  lemma SmallNodeHasLeafKids(t: QTree, cfg: Config)
    requires t.Node? && TreeInv(t.nw, cfg) && TreeInv(t.ne, cfg) && TreeInv(t.sw, cfg) && TreeInv(t.se, cfg)
    ensures Size(t) <= cfg.capacity ==> t.nw.Leaf? && t.ne.Leaf? && t.sw.Leaf? && t.se.Leaf?
  {
  }

  /** After one child's removal, the children of an internal node still keep the invariant. */
  lemma KidsKeepInv(t: QTree, q: Quadrant, obj: GameObject, eq: (GameObject, GameObject) -> bool, cfg: Config)
    requires t.Node? && KidsInv(t, cfg)
    ensures TreeInv(Child(t, q), cfg)
    ensures var t' := WithChild(t, q, Remove(Child(t, q), obj, eq, cfg).0);
            t'.Node? && Size(t') <= cfg.capacity ==> t'.nw.Leaf? && t'.ne.Leaf? && t'.sw.Leaf? && t'.se.Leaf?
  {
    assert TreeInv(Child(t, q), cfg) by {
      match q
      case NWQ =>
      case NEQ =>
      case SWQ =>
      case SEQ =>
    }
    RemoveCorrect(Child(t, q), obj, eq, cfg);
    var t' := WithChild(t, q, Remove(Child(t, q), obj, eq, cfg).0);
    assert TreeInv(t'.nw, cfg) && TreeInv(t'.ne, cfg) && TreeInv(t'.sw, cfg) && TreeInv(t'.se, cfg) by {
      match q
      case NWQ =>
      case NEQ =>
      case SWQ =>
      case SEQ =>
    }
    SmallNodeHasLeafKids(t', cfg);
  }

  /** `l'` shrank from `l`, and the slots it gave up are no longer live. */
  ghost predicate Shrank(l: Slots, l': Slots, liveBefore: set<nat>, liveAfter: set<nat>)
  {
    && FP(l') <= FP(l)
    && liveAfter == liveBefore - (FP(l) - FP(l'))
  }

  /**
   * The order in which clear_ gives slots back to the pool, as the free
   * list then reads from its head: the node itself (deallocated last), then
   * SE, SW, NE and NW (the children are cleared NW first).
   */
  function Released(l: Slots): seq<nat>
  {
    match l
    case SlotLeaf(at) => [at]
    case SlotNode(at, nw, ne, sw, se) => [at] + Released(se) + Released(sw) + Released(ne) + Released(nw)
  }

  /** clear_ gives back every slot of the layout and nothing else, each slot once. */
  lemma {:induction false} ReleasedIsFootprint(l: Slots)
    requires Separate(l)
    ensures forall s :: s in Released(l) <==> s in FP(l)
    ensures |Released(l)| == |FP(l)|
  {
    match l
    case SlotLeaf(_) =>
    case SlotNode(at, nw, ne, sw, se) =>
      ReleasedIsFootprint(nw);
      ReleasedIsFootprint(ne);
      ReleasedIsFootprint(sw);
      ReleasedIsFootprint(se);
      SeparateSize(l);
  }

  /** The slots of an internal node besides its own are its children's. */
  lemma KidsFootprint(l: Slots)
    requires l.SlotNode? && Separate(l)
    ensures FP(l) - {l.at} == FP(l.nw) + FP(l.ne) + FP(l.sw) + FP(l.se)
  {
  }

  lemma SubtractFour(v: set<nat>, a: set<nat>, b: set<nat>, c: set<nat>, d: set<nat>)
    ensures v - a - b - c - d == v - (a + b + c + d)
  {
  }

  /** The free list after clearing the children and then the node, regrouped. */
  lemma ReleasedStep(l: Slots, f: seq<nat>)
    requires l.SlotNode?
    ensures [l.at] + (Released(l.se) + (Released(l.sw) + (Released(l.ne) + (Released(l.nw) + f))))
         == Released(l) + f
  {
    Regroup(Released(l.se), Released(l.sw), Released(l.ne), Released(l.nw), f);
    var rest := Released(l.se) + Released(l.sw) + Released(l.ne) + Released(l.nw);
    assert [l.at] + (rest + f) == ([l.at] + rest) + f;
    Regroup([l.at], Released(l.se), Released(l.sw), Released(l.ne), Released(l.nw));
  }

  lemma ShrankWhole(l: Slots, l': Slots, live: set<nat>, live': set<nat>)
    requires Shrank(l, l', live, live') && FP(l) == live
    ensures FP(l') == live'
  {
  }

  lemma ShrankTrans(l1: Slots, l2: Slots, l3: Slots, a: set<nat>, b: set<nat>, c: set<nat>)
    requires Shrank(l1, l2, a, b) && Shrank(l2, l3, b, c)
    ensures Shrank(l1, l3, a, c)
  {
  }

  /** The slot a link names, as the list deallocate pushes: null pushes nothing. */
  function LinkList(o: Option<nat>): seq<nat>
  {
    if o.Some? then [o.value] else []
  }

  function LinkSet(o: Option<nat>): set<nat>
  {
    if o.Some? then {o.value} else {}
  }

  lemma Regroup(a: seq<nat>, b: seq<nat>, c: seq<nat>, d: seq<nat>, e: seq<nat>)
    ensures a + (b + (c + (d + e))) == a + b + c + d + e
  {
    assert c + (d + e) == c + d + e;
    assert b + (c + d + e) == b + c + d + e;
  }

  lemma FourLinks(a: nat, b: nat, c: nat, d: nat)
    ensures LinkList(Some(a)) + LinkList(Some(b)) + LinkList(Some(c)) + LinkList(Some(d)) == [a, b, c, d]
  {
    assert LinkList(Some(a)) + LinkList(Some(b)) == [a, b];
    assert [a, b] + LinkList(Some(c)) == [a, b, c];
  }

  /** The child links of a node name live slots, no slot twice. */
  ghost predicate Releasable(n: TreeNode, live: set<nat>)
  {
    && LinkSet(n.nw) + LinkSet(n.ne) + LinkSet(n.sw) + LinkSet(n.se) <= live
    && LinkSet(n.nw) !! LinkSet(n.ne) && LinkSet(n.nw) !! LinkSet(n.sw) && LinkSet(n.nw) !! LinkSet(n.se)
    && LinkSet(n.ne) !! LinkSet(n.sw) && LinkSet(n.ne) !! LinkSet(n.se) && LinkSet(n.sw) !! LinkSet(n.se)
  }

  /**
   * std::remove followed by erase at QuadTree.h:127-129: the entries not
   * equal to `obj`, in their original order.
   */
  method EraseEqual(objects: seq<GameObject>, obj: GameObject, eq: (GameObject, GameObject) -> bool)
    returns (kept: seq<GameObject>)
    ensures kept == Keep(objects, obj, eq)
  {
    kept := [];
    for i := 0 to |objects|
      invariant kept == Keep(objects[..i], obj, eq)
    {
      assert objects[..i + 1][..i] == objects[..i];
      if !eq(objects[i], obj) {
        kept := kept + [objects[i]];
      }
    }
    assert objects[..|objects|] == objects;
  }

  /** `l'` grew from `l` by slots that were free before and are live now. */
  ghost predicate Grew(l: Slots, l': Slots, liveBefore: set<nat>, liveAfter: set<nat>)
  {
    && FP(l) <= FP(l')
    && FP(l') - FP(l) !! liveBefore
    && liveAfter == liveBefore + (FP(l') - FP(l))
  }

  lemma GrewTrans(l1: Slots, l2: Slots, l3: Slots, a: set<nat>, b: set<nat>, c: set<nat>)
    requires Grew(l1, l2, a, b) && Grew(l2, l3, b, c)
    ensures Grew(l1, l3, a, c)
  {
  }

  /** A set of slot numbers below `n` has at most `n` members. */
  lemma {:induction false} BoundedSlots(s: set<nat>, n: nat)
    requires forall x :: x in s ==> x < n
    ensures |s| <= n
    decreases n
  {
    if n == 0 {
      assert s == {};
    } else {
      BoundedSlots(s - {n - 1}, n - 1);
    }
  }

  /** Four WithLink steps, one per quadrant, set all four links. */
  lemma LinkedFour(n0: TreeNode, n1: TreeNode, n2: TreeNode, n3: TreeNode, n4: TreeNode, a: nat, b: nat, c: nat, d: nat)
    requires n1 == WithLink(n0, NWQ, Some(a)) && n2 == WithLink(n1, NEQ, Some(b))
    requires n3 == WithLink(n2, SWQ, Some(c)) && n4 == WithLink(n3, SEQ, Some(d))
    ensures n4 == n0.(nw := Some(a), ne := Some(b), sw := Some(c), se := Some(d))
  {
  }

  lemma GrownByFour(v0: set<nat>, v1: set<nat>, v2: set<nat>, v3: set<nat>, v4: set<nat>, a: nat, b: nat, c: nat, d: nat)
    requires v1 == v0 + {a} && v2 == v1 + {b} && v3 == v2 + {c} && v4 == v3 + {d}
    ensures v4 == v0 + {a, b, c, d}
  {
  }

  class QuadTree {
    /** capacity_. */
    const capacity: nat
    /** min_quad_. */
    const minQuad: Point2D
    /** pool_: the slots the nodes live in. */
    const pool: Pool
    /** The node stored in each slot of the pool. */
    const nodes: array<TreeNode>
    /** root_. */
    var root: nat

    /** The tree the nodes hold, and the slot of each of its nodes. */
    ghost var tree: QTree
    ghost var layout: Slots

    /**
     * QuadTree(boundary, capacity, minQuad): a fresh pool of `poolSize`
     * slots and a root leaf with the boundary, taken from slot 0.
     */
    constructor (boundary: Boundary2D, capacity: nat, minQuad: Point2D, poolSize: nat)
      requires 1 <= poolSize && 0.0 < minQuad.x
      ensures Valid() && fresh(pool) && fresh(nodes)
      ensures this.capacity == capacity && this.minQuad == minQuad && pool.size == poolSize
      ensures tree == Leaf(boundary, []) && root == 0
      ensures |pool.freeList| == poolSize - 1
    {
      this.capacity := capacity;
      this.minQuad := minQuad;
      pool := new Pool(poolSize);
      nodes := new TreeNode[poolSize](_ => EmptyNode(Default()));
      new;
      root := CreateNode(boundary);
      tree := Leaf(boundary, []);
      layout := SlotLeaf(root);
    }

    /**
     * The copy constructor: capacity_ and min_quad_ are copied, and
     * copy_tree_ copies the other tree's nodes into this tree's own fresh
     * pool of the same size.
     */
    constructor Copy(other: QuadTree)
      requires other.Valid()
      ensures Valid() && fresh(pool) && fresh(nodes)
      ensures capacity == other.capacity && minQuad == other.minQuad && pool.size == other.pool.size
      ensures tree == other.tree
      ensures |pool.freeList| == pool.size - NodeCount(tree)
    {
      capacity := other.capacity;
      minQuad := other.minQuad;
      pool := new Pool(other.pool.size);
      nodes := new TreeNode[other.pool.size](_ => EmptyNode(Default()));
      new;
      CopyRoot(other);
    }

    /** `root_ = copy_tree_(other.root_)`, into this tree's empty pool. */
    method CopyRoot(other: QuadTree)
      requires other != this && other.Valid() && other.nodes != nodes && other.pool.size == pool.size
      requires capacity == other.capacity && minQuad == other.minQuad
      requires Inner() && pool.live == {} && |pool.freeList| == pool.size
      modifies this, pool, pool.slots, nodes
      ensures Valid() && tree == other.tree
      ensures |pool.freeList| == pool.size - NodeCount(tree)
    {
      var c, l := CopyTree(other);
      root, tree, layout := c, other.tree, l;
    }

    /** The copy_tree_ call of CopyRoot, with the other tree's node count bounded by the pool size. */
    method CopyTree(other: QuadTree) returns (c: nat, ghost l: Slots)
      requires other.Valid() && other.nodes != nodes && other.pool.size == pool.size
      requires Inner() && pool.live == {} && |pool.freeList| == pool.size
      modifies pool, pool.slots, nodes
      ensures Inner() && l.at == c && Rep(other.tree, l, nodes[..]) && Separate(l) && FP(l) == pool.live
      ensures |pool.freeList| == pool.size - NodeCount(other.tree)
    {
      FootprintCount(other.tree, other.layout, other.nodes[..]);
      BoundedSlots(other.pool.live, other.pool.size);
      var o;
      o, l := CopyFrom(other.nodes, Some(other.root), other.tree, other.layout);
      c := o.value;
    }

    /**
     * insert: insert_ at the root. An entry inside the root boundary is
     * always accepted and added once; one outside is refused and nothing
     * changes. The pool must have a free slot for every node the insertion
     * creates.
     */
    method InsertObject(obj: GameObject) returns (ok: bool)
      requires Valid()
      requires NodeCount(Insert(tree, obj, Cfg()).0) - NodeCount(tree) <= |pool.freeList|
      modifies this, pool, pool.slots, nodes
      ensures Valid() && root == old(root)
      ensures tree == Insert(old(tree), obj, Cfg()).0 && ok == Insert(old(tree), obj, Cfg()).1
      ensures ok <==> Contains(old(tree).boundary, obj.pos)
      ensures ok ==> multiset(Entries(tree)) == multiset(Entries(old(tree))) + multiset{obj}
      ensures !ok ==> tree == old(tree)
    {
      ghost var t := tree;
      if Contains(t.boundary, obj.pos) {
        InsertCorrect(t, obj, Cfg());
      }
      ghost var l;
      ok, l := InsertAt(root, obj, t, layout);
      tree, layout := Insert(t, obj, Cfg()).0, l;
    }

    /**
     * remove: remove_ at the root. Only entries `eq` to `obj` leave, it
     * reports success exactly when the size dropped, and the tree keeps
     * its invariant.
     */
    method RemoveObject(obj: GameObject, eq: (GameObject, GameObject) -> bool) returns (ok: bool)
      requires Valid()
      modifies this, pool, pool.slots, nodes
      ensures Valid() && root == old(root)
      ensures tree == Remove(old(tree), obj, eq, Cfg()).0 && ok == Remove(old(tree), obj, eq, Cfg()).1
      ensures ok <==> Size(tree) < Size(old(tree))
      ensures Removed(multiset(Entries(tree)), multiset(Entries(old(tree))), obj, eq)
    {
      ghost var t, live := tree, pool.live;
      ghost var r := Remove(t, obj, eq, Cfg());
      RemoveCorrect(t, obj, eq, Cfg());
      ghost var l;
      ok, l := RemoveAt(root, obj, eq, t, layout);
      ShrankWhole(layout, l, live, pool.live);
      Replace(r.0, l);
    }

    /** The nodes reachable from the root now hold `t'`, laid out as `l'`. */
    method Replace(ghost t': QTree, ghost l': Slots)
      requires Inner() && l'.at == root && Rep(t', l', nodes[..]) && Separate(l')
      requires FP(l') == pool.live && TreeInv(t', Cfg())
      modifies this
      ensures Valid() && tree == t' && layout == l' && root == old(root)
    {
      tree, layout := t', l';
    }

    /** size: the number of entries stored in the tree. */
    method Count() returns (n: nat)
      requires Valid()
      ensures n == |Entries(tree)|
    {
      n := SizeAt(Some(root), tree, layout);
    }

    /** queryRange: the entries whose position the range contains, in entry order. */
    method QueryRange(range: Boundary2D) returns (r: seq<GameObject>)
      requires Valid()
      ensures r == InRange(Entries(tree), range)
    {
      r := QueryAt(root, range, tree, layout);
      QueryMatchesFilter(tree, range, Cfg());
    }

    /**
     * clear as written: clear_ at the root gives every slot back, the root
     * last, so root_ is left on the head of the free list and the object
     * no longer holds a tree.
     */
    method ClearAsWritten()
      requires Valid()
      modifies pool, pool.slots
      ensures pool.live == {} && pool.freeList == Released(layout) + old(pool.freeList)
      ensures pool.freeList[0] == root
      ensures !Valid()
    {
      ClearAt(Some(root), tree, layout);
    }

    /**
     * clear, corrected: after clear_ the root is created again as an empty
     * leaf with the old root boundary, which reuses the root's slot.
     */
    method Clear()
      requires Valid()
      modifies this, pool, pool.slots, nodes
      ensures Valid() && root == old(root)
      ensures tree == Leaf(old(tree).boundary, [])
    {
      var b := nodes[root].boundary;
      root := Replant(b);
      tree, layout := Leaf(b, []), SlotLeaf(root);
    }

    /**
     * The body of the corrected clear: clear_ at the root, then a fresh
     * root node with boundary `b`, which the free list hands out from the
     * root's own slot.
     */
    method Replant(b: Boundary2D) returns (p: nat)
      requires Valid()
      modifies pool, pool.slots, nodes
      ensures Inner() && p == root && p < nodes.Length && pool.live == {p} && nodes[p] == EmptyNode(b)
    {
      ClearAt(Some(root), tree, layout);
      p := CreateNode(b);
    }

    function Cfg(): Config
    {
      Config(capacity, minQuad)
    }

    /** The pool is consistent, owns one node per slot, and min_quad_.x is positive. */
    ghost predicate Inner()
      reads pool, pool.slots
    {
      pool.Valid() && nodes.Length == pool.size && 0.0 < minQuad.x
    }

    /**
     * The nodes reachable from the root hold `tree`, they occupy exactly the
     * live slots of the pool, and the tree keeps its invariant.
     */
    ghost predicate Valid()
      reads this, pool, pool.slots, nodes
    {
      && Inner()
      && layout.at == root
      && Rep(tree, layout, nodes[..])
      && Separate(layout)
      && FP(layout) == pool.live
      && TreeInv(tree, Cfg())
    }

    /**
     * is_leaf_: a null link is no leaf; a stored node is one exactly when
     * its NW link is null, which on a represented tree means a leaf.
     */
    function IsLeaf(p: Option<nat>): (r: bool)
      reads nodes
      ensures p.None? ==> !r
      ensures forall t, l :: Rep(t, l, nodes[..]) && p == Some(l.at) ==> (r <==> t.Leaf?)
    {
      p.Some? && p.value < nodes.Length && nodes[p.value].nw.None?
    }

    /** create_node_: take the head free slot and put an empty node with the boundary there. */
    method CreateNode(b: Boundary2D) returns (p: nat)
      requires Inner() && pool.freeList != []
      modifies pool, pool.slots, nodes
      ensures Inner()
      ensures p < nodes.Length && p !in old(pool.live) && pool.live == old(pool.live) + {p}
      ensures p == old(pool.freeList)[0] && pool.freeList == old(pool.freeList)[1..]
      ensures nodes[p] == EmptyNode(b) && forall s :: 0 <= s < nodes.Length && s != p ==> nodes[s] == old(nodes[s])
    {
      var s := pool.Create();
      p := s.value;
      nodes[p] := EmptyNode(b);
    }

    /** size_: the number of entries in the subtree at `p`; null counts zero. */
    method SizeAt(p: Option<nat>, ghost t: QTree, ghost l: Slots) returns (n: nat)
      requires p.Some? ==> Rep(t, l, nodes[..]) && l.at == p.value
      ensures n == if p.Some? then Size(t) else 0
      decreases l, if p.Some? then 1 else 0
    {
      if p.None? {
        return 0;
      }
      var node := nodes[p.value];
      ghost var tnw, tne, tsw, tse := t, t, t, t;
      ghost var lnw, lne, lsw, lse := l, l, l, l;
      if t.Node? {
        tnw, tne, tsw, tse := t.nw, t.ne, t.sw, t.se;
        lnw, lne, lsw, lse := l.nw, l.ne, l.sw, l.se;
      }
      var a := SizeAt(node.nw, tnw, lnw);
      var b := SizeAt(node.ne, tne, lne);
      var c := SizeAt(node.sw, tsw, lsw);
      var d := SizeAt(node.se, tse, lse);
      n := |node.objects| + a + b + c + d;
    }

    /**
     * query_range_: nothing when the range misses the node; the entries of
     * a leaf inside the range; the children's results in NW, NE, SW, SE order.
     */
    method QueryAt(p: nat, range: Boundary2D, ghost t: QTree, ghost l: Slots) returns (r: seq<GameObject>)
      requires Rep(t, l, nodes[..]) && l.at == p
      ensures r == Query(t, range)
      decreases l
    {
      var node := nodes[p];
      if !Intersects(node.boundary, range) {
        return [];
      }
      if IsLeaf(Some(p)) {
        var objects := node.objects;
        r := [];
        for i := 0 to |objects|
          invariant r == InRange(objects[..i], range)
        {
          assert objects[..i + 1][..i] == objects[..i];
          if Contains(range, objects[i].pos) {
            r := r + [objects[i]];
          }
        }
        assert objects[..|objects|] == objects;
        return;
      }
      var a := QueryAt(node.nw.value, range, t.nw, l.nw);
      var b := QueryAt(node.ne.value, range, t.ne, l.ne);
      var c := QueryAt(node.sw.value, range, t.sw, l.sw);
      var d := QueryAt(node.se.value, range, t.se, l.se);
      r := a + b + c + d;
    }
  
    /**
     * insert_: refused outside the boundary; at a leaf, append while under
     * capacity_, otherwise subdivide and append anyway when that is
     * refused; then the children in NW, NE, SW, SE order.
     */
    method InsertAt(p: nat, obj: GameObject, ghost t: QTree, ghost l: Slots) returns (ok: bool, ghost l': Slots)
      requires Inner() && Rep(t, l, nodes[..]) && Separate(l) && l.at == p && FP(l) <= pool.live
      requires NodeCount(Insert(t, obj, Cfg()).0) - NodeCount(t) <= |pool.freeList|
      modifies pool, pool.slots, nodes
      ensures Inner()
      ensures ok == Insert(t, obj, Cfg()).1
      ensures Rep(Insert(t, obj, Cfg()).0, l', nodes[..]) && Separate(l') && l'.at == p
      ensures Grew(l, l', old(pool.live), pool.live)
      ensures |pool.freeList| + NodeCount(Insert(t, obj, Cfg()).0) == |old(pool.freeList)| + NodeCount(t)
      ensures forall s :: 0 <= s < nodes.Length && s !in FP(l') ==> nodes[s] == old(nodes[s])
      decreases Rank(t, minQuad), 2, 0
    {
      var node := nodes[p];
      if !Contains(node.boundary, obj.pos) {
        return false, l;
      }
      LeafIffNoNW(t, l, nodes[..]);
      if IsLeaf(Some(p)) {
        if |node.objects| < capacity {
          nodes[p] := node.(objects := node.objects + [obj]);
          return true, l;
        }
        var split;
        split, l' := SubdivideAt(p, t, l);
        if !split {
          nodes[p] := nodes[p].(objects := nodes[p].objects + [obj]);
          return true, l';
        }
        ghost var s := Subdivide(t, Cfg()).0;
        ghost var l2, live1 := l', pool.live;
        ok, l' := InsertChildrenAt(p, obj, s, l2);
        GrewTrans(l, l2, l', old(pool.live), live1, pool.live);
        return;
      }
      ok, l' := InsertChildrenAt(p, obj, t, l);
    }

    /** The tail of insert_ at an internal node: NW, NE, SW, SE until one accepts. */
    method InsertChildrenAt(p: nat, obj: GameObject, ghost t: QTree, ghost l: Slots) returns (ok: bool, ghost l': Slots)
      requires Inner() && t.Node? && Rep(t, l, nodes[..]) && Separate(l) && l.at == p && FP(l) <= pool.live
      requires NodeCount(InsertIntoChildren(t, obj, Cfg()).0) - NodeCount(t) <= |pool.freeList|
      modifies pool, pool.slots, nodes
      ensures Inner()
      ensures ok == InsertIntoChildren(t, obj, Cfg()).1
      ensures Rep(InsertIntoChildren(t, obj, Cfg()).0, l', nodes[..]) && Separate(l') && l'.at == p
      ensures Grew(l, l', old(pool.live), pool.live)
      ensures |pool.freeList| + NodeCount(InsertIntoChildren(t, obj, Cfg()).0) == |old(pool.freeList)| + NodeCount(t)
      ensures forall s :: 0 <= s < nodes.Length && s !in FP(l') ==> nodes[s] == old(nodes[s])
      decreases Rank(t, minQuad), 1, 1
    {
      InsertFromStart(t, obj, Cfg());
      ok, l' := InsertFromAt(p, NWQ, obj, t, l);
    }

    /**
     * The children of the node at `p` from quadrant `q` on, in the order
     * insert_ tries them, until one accepts.
     */
    method InsertFromAt(p: nat, q: Quadrant, obj: GameObject, ghost t: QTree, ghost l: Slots) returns (ok: bool, ghost l': Slots)
      requires Inner() && t.Node? && Rep(t, l, nodes[..]) && Separate(l) && l.at == p && FP(l) <= pool.live
      requires NodeCount(InsertFrom(t, q, obj, Cfg()).0) - NodeCount(t) <= |pool.freeList|
      modifies pool, pool.slots, nodes
      ensures Inner()
      ensures ok == InsertFrom(t, q, obj, Cfg()).1
      ensures Rep(InsertFrom(t, q, obj, Cfg()).0, l', nodes[..]) && Separate(l') && l'.at == p
      ensures Grew(l, l', old(pool.live), pool.live)
      ensures |pool.freeList| + NodeCount(InsertFrom(t, q, obj, Cfg()).0) == |old(pool.freeList)| + NodeCount(t)
      ensures forall s :: 0 <= s < nodes.Length && s !in FP(l') ==> nodes[s] == old(nodes[s])
      decreases Rank(t, minQuad), 0, 4 - Order(q)
    {
      ghost var a := Insert(Child(t, q), obj, Cfg());
      ChildFacts(t, l, q, nodes[..], minQuad);
      assert Link(nodes[p], q) == Some(ChildSlots(l, q).at) by {
        match q
        case NWQ =>
        case NEQ =>
        case SWQ =>
        case SEQ =>
      }
      WithChildMeasures(t, q, a.0, minQuad);
      ok, l' := InsertIntoChild(p, q, Link(nodes[p], q).value, obj, t, l);
      if ok || q == SEQ {
        return;
      }
      assert Rank(WithChild(t, q, a.0), minQuad) <= Rank(t, minQuad);
      NextFollows(q);
      assert InsertFrom(t, q, obj, Cfg()) == InsertFrom(WithChild(t, q, a.0), Next(q), obj, Cfg());
      ghost var l1, live1 := l', pool.live;
      ok, l' := InsertFromAt(p, Next(q), obj, WithChild(t, q, a.0), l1);
      GrewTrans(l, l1, l', old(pool.live), live1, pool.live);
    }

    /**
     * subdivide_: refused when the quarter-extent is at most min_quad_ on
     * either axis; otherwise four children are taken from the pool, each
     * entry is offered to all four in order, and the entry list is cleared.
     */
    method SubdivideAt(p: nat, ghost t: QTree, ghost l: Slots) returns (split: bool, ghost l': Slots)
      requires Inner() && t.Leaf? && Rep(t, l, nodes[..]) && l.at == p && FP(l) <= pool.live
      requires NodeCount(Subdivide(t, Cfg()).0) - NodeCount(t) <= |pool.freeList|
      modifies pool, pool.slots, nodes
      ensures Inner()
      ensures split == Subdivide(t, Cfg()).1
      ensures Rep(Subdivide(t, Cfg()).0, l', nodes[..]) && Separate(l') && l'.at == p
      ensures Grew(l, l', old(pool.live), pool.live)
      ensures |pool.freeList| + NodeCount(Subdivide(t, Cfg()).0) == |old(pool.freeList)| + NodeCount(t)
      ensures forall s :: 0 <= s < nodes.Length && s !in FP(l') ==> nodes[s] == old(nodes[s])
      decreases Rank(t, minQuad), 1, 2
    {
      var b := nodes[p].boundary;
      var hh := HalfHalfLength(b);
      if hh.x <= minQuad.x || hh.y <= minQuad.y {
        return false, l;
      }
      SubdivideUnfolds(t, Cfg());
      l' := SplitAndReinsert(p, t, l);
      return true, l';
    }

    /**
     * The subdividing branch of subdivide_: four new children, the
     * node's entries taken out, then each entry offered to the children.
     */
    method SplitAndReinsert(p: nat, ghost t: QTree, ghost l: Slots) returns (ghost l': Slots)
      requires Inner() && t.Leaf? && Rep(t, l, nodes[..]) && l.at == p && FP(l) <= pool.live
      requires Rank(Split(t.boundary), minQuad) <= Rank(t, minQuad)
      requires NodeCount(ReinsertAll(t.entries, Split(t.boundary), Cfg())) - NodeCount(t) <= |pool.freeList|
      modifies pool, pool.slots, nodes
      ensures Inner()
      ensures Rep(ReinsertAll(t.entries, Split(t.boundary), Cfg()), l', nodes[..]) && Separate(l') && l'.at == p
      ensures Grew(l, l', old(pool.live), pool.live)
      ensures |pool.freeList| + NodeCount(ReinsertAll(t.entries, Split(t.boundary), Cfg())) == |old(pool.freeList)| + NodeCount(t)
      ensures forall s :: 0 <= s < nodes.Length && s !in FP(l') ==> nodes[s] == old(nodes[s])
      decreases Rank(t, minQuad), 1, 1
    {
      var objects;
      ghost var lc;
      objects, lc := SplitLeaf(p, t, l);
      ghost var live1 := pool.live;
      l' := ReinsertEach(p, objects, Split(t.boundary), lc);
      GrewTrans(l, lc, l', old(pool.live), live1, pool.live);
    }

    /**
     * The first half of subdivide_: four empty quadrant children linked
     * from the leaf at `p`, and its entry list taken out. The loop that
     * follows walks the entry list while inserting into the children,
     * which never read it, so it is walked here from a copy and the list
     * is cleared at once.
     */
    method SplitLeaf(p: nat, ghost t: QTree, ghost l: Slots) returns (objects: seq<GameObject>, ghost lc: Slots)
      requires Inner() && t.Leaf? && Rep(t, l, nodes[..]) && l.at == p && FP(l) <= pool.live
      requires 4 <= |pool.freeList|
      modifies pool, pool.slots, nodes
      ensures Inner() && objects == t.entries
      ensures Rep(Split(t.boundary), lc, nodes[..]) && Separate(lc) && lc.at == p
      ensures Grew(l, lc, old(pool.live), pool.live)
      ensures |pool.freeList| + 4 == |old(pool.freeList)|
      ensures forall s :: 0 <= s < nodes.Length && s !in FP(lc) ==> nodes[s] == old(nodes[s])
    {
      var nw, ne, sw, se := CreateChildren(p);
      lc := SlotNode(p, SlotLeaf(nw), SlotLeaf(ne), SlotLeaf(sw), SlotLeaf(se));
      FreshChildren(l, lc, old(pool.live), pool.live);
      objects := nodes[p].objects;
      ghost var ns := nodes[..];
      nodes[p] := nodes[p].(objects := []);
      SplitRep(t.boundary, lc, ns, nodes[p]);
    }

    /** The loop of subdivide_: each entry, in order, offered to all four children. */
    method ReinsertEach(p: nat, objects: seq<GameObject>, ghost t: QTree, ghost l: Slots) returns (ghost l': Slots)
      requires Inner() && t.Node? && Rep(t, l, nodes[..]) && Separate(l) && l.at == p && FP(l) <= pool.live
      requires NodeCount(ReinsertAll(objects, t, Cfg())) - NodeCount(t) <= |pool.freeList|
      modifies pool, pool.slots, nodes
      ensures Inner()
      ensures Rep(ReinsertAll(objects, t, Cfg()), l', nodes[..]) && Separate(l') && l'.at == p
      ensures Grew(l, l', old(pool.live), pool.live)
      ensures |pool.freeList| + NodeCount(ReinsertAll(objects, t, Cfg())) == |old(pool.freeList)| + NodeCount(t)
      ensures forall s :: 0 <= s < nodes.Length && s !in FP(l') ==> nodes[s] == old(nodes[s])
      decreases Rank(t, minQuad), 1, 0
    {
      ghost var cur, whole := t, ReinsertAll(objects, t, Cfg());
      l' := l;
      for i := 0 to |objects|
        invariant Inner()
        invariant cur.Node? && l'.SlotNode? && l'.at == p
        invariant Rep(cur, l', nodes[..]) && Separate(l')
        invariant Grew(l, l', old(pool.live), pool.live)
        invariant ReinsertAll(objects[i..], cur, Cfg()) == whole
        invariant NodeCount(whole) - NodeCount(cur) <= |pool.freeList|
        invariant |pool.freeList| + NodeCount(cur) == |old(pool.freeList)| + NodeCount(t)
        invariant Rank(cur, minQuad) <= Rank(t, minQuad)
        invariant forall s :: 0 <= s < nodes.Length && s !in FP(l') ==> nodes[s] == old(nodes[s])
      {
        ReinsertOffers(objects, i, cur, Cfg());
        ghost var l0, live0 := l', pool.live;
        l' := OfferFromAt(p, NWQ, objects[i], cur, l');
        GrewTrans(l, l0, l', old(pool.live), live0, pool.live);
        cur := OfferFrom(cur, NWQ, objects[i], Cfg());
      }
    }

    /** node->nw, ->ne, ->sw, ->se = create_node_ of the four quadrants, in that order. */
    method CreateChildren(p: nat) returns (nw: nat, ne: nat, sw: nat, se: nat)
      requires Inner() && p < nodes.Length && p in pool.live && 4 <= |pool.freeList|
      modifies pool, pool.slots, nodes
      ensures Inner()
      ensures nw !in old(pool.live) && ne !in old(pool.live) + {nw}
      ensures sw !in old(pool.live) + {nw, ne} && se !in old(pool.live) + {nw, ne, sw}
      ensures pool.live == old(pool.live) + {nw, ne, sw, se}
      ensures |pool.freeList| + 4 == |old(pool.freeList)|
      ensures nodes[p] == old(nodes[p]).(nw := Some(nw), ne := Some(ne), sw := Some(sw), se := Some(se))
      ensures var b := old(nodes[p]).boundary;
              && nodes[nw] == EmptyNode(NW(b)) && nodes[ne] == EmptyNode(NE(b))
              && nodes[sw] == EmptyNode(SW(b)) && nodes[se] == EmptyNode(SE(b))
      ensures forall s :: 0 <= s < nodes.Length && s !in {p, nw, ne, sw, se} ==> nodes[s] == old(nodes[s])
    {
      var b := nodes[p].boundary;
      ghost var n0, v0 := nodes[p], pool.live;
      nw := CreateChild(p, NWQ, NW(b));
      ghost var n1, v1 := nodes[p], pool.live;
      ne := CreateChild(p, NEQ, NE(b));
      ghost var n2, v2 := nodes[p], pool.live;
      sw := CreateChild(p, SWQ, SW(b));
      ghost var n3, v3 := nodes[p], pool.live;
      se := CreateChild(p, SEQ, SE(b));
      LinkedFour(n0, n1, n2, n3, nodes[p], nw, ne, sw, se);
      GrownByFour(v0, v1, v2, v3, pool.live, nw, ne, sw, se);
    }

    /** node->q = create_node_(quadrant): a fresh child linked from the node at `p`. */
    method CreateChild(p: nat, q: Quadrant, b: Boundary2D) returns (c: nat)
      requires Inner() && p < nodes.Length && p in pool.live && pool.freeList != []
      modifies pool, pool.slots, nodes
      ensures Inner()
      ensures c < nodes.Length && c !in old(pool.live) && pool.live == old(pool.live) + {c}
      ensures pool.freeList == old(pool.freeList)[1..]
      ensures nodes[c] == EmptyNode(b)
      ensures nodes[p] == WithLink(old(nodes[p]), q, Some(c))
      ensures forall s :: 0 <= s < nodes.Length && s != p && s != c ==> nodes[s] == old(nodes[s])
    {
      c := CreateNode(b);
      var n := nodes[p];
      nodes[p] := WithLink(n, q, Some(c));
    }

    /** The loop body of subdivide_ from quadrant `q` on: insert_ into every child. */
    method OfferFromAt(p: nat, q: Quadrant, e: GameObject, ghost t: QTree, ghost l: Slots) returns (ghost l': Slots)
      requires Inner() && t.Node? && Rep(t, l, nodes[..]) && Separate(l) && l.at == p && FP(l) <= pool.live
      requires NodeCount(OfferFrom(t, q, e, Cfg())) - NodeCount(t) <= |pool.freeList|
      modifies pool, pool.slots, nodes
      ensures Inner()
      ensures Rep(OfferFrom(t, q, e, Cfg()), l', nodes[..]) && Separate(l') && l'.at == p && l'.SlotNode?
      ensures Grew(l, l', old(pool.live), pool.live)
      ensures |pool.freeList| + NodeCount(OfferFrom(t, q, e, Cfg())) == |old(pool.freeList)| + NodeCount(t)
      ensures forall s :: 0 <= s < nodes.Length && s !in FP(l') ==> nodes[s] == old(nodes[s])
      decreases Rank(t, minQuad), 0, 4 - Order(q)
    {
      ghost var a := Insert(Child(t, q), e, Cfg());
      ChildFacts(t, l, q, nodes[..], minQuad);
      assert Link(nodes[p], q) == Some(ChildSlots(l, q).at) by {
        match q
        case NWQ =>
        case NEQ =>
        case SWQ =>
        case SEQ =>
      }
      WithChildMeasures(t, q, a.0, minQuad);
      var accepted;
      accepted, l' := InsertIntoChild(p, q, Link(nodes[p], q).value, e, t, l);
      if q == SEQ {
        return;
      }
      assert Rank(WithChild(t, q, a.0), minQuad) <= Rank(t, minQuad);
      NextFollows(q);
      assert OfferFrom(t, q, e, Cfg()) == OfferFrom(WithChild(t, q, a.0), Next(q), e, Cfg());
      ghost var l1, live1 := l', pool.live;
      l' := OfferFromAt(p, Next(q), e, WithChild(t, q, a.0), l1);
      GrewTrans(l, l1, l', old(pool.live), live1, pool.live);
    }

    /**
     * One call insert_(node->q, obj) made from the internal node at `p`:
     * the child is replaced by its insert result.
     */
    method InsertIntoChild(p: nat, q: Quadrant, c: nat, obj: GameObject, ghost t: QTree, ghost l: Slots)
      returns (ok: bool, ghost l': Slots)
      requires Inner() && t.Node? && l.at == p
      requires Rep(t, l, nodes[..]) && Separate(l) && FP(l) <= pool.live
      requires l.SlotNode? && c == ChildSlots(l, q).at
      requires NodeCount(Insert(Child(t, q), obj, Cfg()).0) - NodeCount(Child(t, q)) <= |pool.freeList|
      modifies pool, pool.slots, nodes
      ensures Inner()
      ensures ok == Insert(Child(t, q), obj, Cfg()).1
      ensures Rep(WithChild(t, q, Insert(Child(t, q), obj, Cfg()).0), l', nodes[..])
      ensures Separate(l') && l'.at == p && l'.SlotNode?
      ensures Grew(l, l', old(pool.live), pool.live)
      ensures |pool.freeList| + NodeCount(Insert(Child(t, q), obj, Cfg()).0)
              == |old(pool.freeList)| + NodeCount(Child(t, q))
      ensures forall s :: 0 <= s < nodes.Length && s !in FP(l') ==> nodes[s] == old(nodes[s])
      decreases Rank(t, minQuad), 0, 0
    {
      ghost var lq := ChildSlots(l, q);
      ChildFacts(t, l, q, nodes[..], minQuad);
      ghost var lc';
      ok, lc' := InsertAt(c, obj, Child(t, q), lq);
      ghost var c' := Insert(Child(t, q), obj, Cfg()).0;
      ChildGrew(t, l, q, c', lc', old(nodes[..]), nodes[..], old(pool.live), pool.live);
      l' := WithChildSlots(l, q, lc');
    }
  
    /**
     * remove_: refused outside the boundary; a leaf erases every entry
     * equal to `obj` and reports whether any went; an internal node asks
     * its children in NW, NE, SW, SE order and, after the first success,
     * tries to merge them back.
     */
    method RemoveAt(p: nat, obj: GameObject, eq: (GameObject, GameObject) -> bool, ghost t: QTree, ghost l: Slots)
      returns (ok: bool, ghost l': Slots)
      requires Inner() && Rep(t, l, nodes[..]) && Separate(l) && l.at == p && FP(l) <= pool.live
      requires TreeInv(t, Cfg())
      modifies pool, pool.slots, nodes
      ensures Inner()
      ensures ok == Remove(t, obj, eq, Cfg()).1
      ensures Rep(Remove(t, obj, eq, Cfg()).0, l', nodes[..]) && Separate(l') && l'.at == p
      ensures Shrank(l, l', old(pool.live), pool.live)
      ensures |pool.freeList| + NodeCount(Remove(t, obj, eq, Cfg()).0) == |old(pool.freeList)| + NodeCount(t)
      ensures forall s :: 0 <= s < nodes.Length && s !in FP(l) ==> nodes[s] == old(nodes[s])
      ensures !ok ==> l' == l && unchanged(pool, pool.slots, nodes)
      decreases NodeCount(t), 1, 0
    {
      var node := nodes[p];
      if !Contains(node.boundary, obj.pos) {
        return false, l;
      }
      LeafIffNoNW(t, l, nodes[..]);
      if IsLeaf(Some(p)) {
        var kept := EraseEqual(node.objects, obj, eq);
        if |kept| < |node.objects| {
          nodes[p] := node.(objects := kept);
          return true, l;
        }
        return false, l;
      }
      RemoveFromStart(t, obj, eq, Cfg());
      ok, l' := RemoveFromAt(p, NWQ, obj, eq, t, l);
    }

    /** The internal-node part of remove_, from quadrant `q` on. */
    method RemoveFromAt(p: nat, q: Quadrant, obj: GameObject, eq: (GameObject, GameObject) -> bool,
                        ghost t: QTree, ghost l: Slots) returns (ok: bool, ghost l': Slots)
      requires Inner() && t.Node? && Rep(t, l, nodes[..]) && Separate(l) && l.at == p && FP(l) <= pool.live
      requires KidsInv(t, Cfg())
      modifies pool, pool.slots, nodes
      ensures Inner()
      ensures ok == RemoveFrom(t, q, obj, eq, Cfg()).1
      ensures Rep(RemoveFrom(t, q, obj, eq, Cfg()).0, l', nodes[..]) && Separate(l') && l'.at == p
      ensures Shrank(l, l', old(pool.live), pool.live)
      ensures |pool.freeList| + NodeCount(RemoveFrom(t, q, obj, eq, Cfg()).0) == |old(pool.freeList)| + NodeCount(t)
      ensures forall s :: 0 <= s < nodes.Length && s !in FP(l) ==> nodes[s] == old(nodes[s])
      ensures !ok ==> l' == l && unchanged(pool, pool.slots, nodes)
      decreases NodeCount(t), 0, 5 - Order(q)
    {
      ghost var a := Remove(Child(t, q), obj, eq, Cfg());
      ChildFacts(t, l, q, nodes[..], minQuad);
      assert Link(nodes[p], q) == Some(ChildSlots(l, q).at) by {
        match q
        case NWQ =>
        case NEQ =>
        case SWQ =>
        case SEQ =>
      }
      ok, l' := RemoveFromChild(p, q, Link(nodes[p], q).value, obj, eq, t, l);
      if ok {
        assert RemoveFrom(t, q, obj, eq, Cfg()) == (Unsubdivide(WithChild(t, q, a.0), Cfg()), true);
        return;
      }
      assert nodes[..] == old(nodes[..]);
      if q == SEQ {
        return;
      }
      NextFollows(q);
      assert RemoveFrom(t, q, obj, eq, Cfg()) == RemoveFrom(t, Next(q), obj, eq, Cfg());
      ok, l' := RemoveFromAt(p, Next(q), obj, eq, t, l);
    }

    /**
     * One `remove_(node->q, obj)` of the internal-node case, followed, when
     * it succeeds, by unsubdivide_ on the node.
     */
    method RemoveFromChild(p: nat, q: Quadrant, c: nat, obj: GameObject, eq: (GameObject, GameObject) -> bool,
                           ghost t: QTree, ghost l: Slots) returns (ok: bool, ghost l': Slots)
      requires Inner() && t.Node? && Rep(t, l, nodes[..]) && Separate(l) && l.at == p && FP(l) <= pool.live
      requires KidsInv(t, Cfg()) && c == ChildSlots(l, q).at
      modifies pool, pool.slots, nodes
      ensures Inner()
      ensures ok == Remove(Child(t, q), obj, eq, Cfg()).1
      ensures ok ==> Rep(Unsubdivide(WithChild(t, q, Remove(Child(t, q), obj, eq, Cfg()).0), Cfg()), l', nodes[..])
      ensures Separate(l') && l'.at == p
      ensures Shrank(l, l', old(pool.live), pool.live)
      ensures ok ==> |pool.freeList| + NodeCount(Unsubdivide(WithChild(t, q, Remove(Child(t, q), obj, eq, Cfg()).0), Cfg()))
                     == |old(pool.freeList)| + NodeCount(t)
      ensures forall s :: 0 <= s < nodes.Length && s !in FP(l) ==> nodes[s] == old(nodes[s])
      ensures !ok ==> l' == l && unchanged(pool, pool.slots, nodes)
      decreases NodeCount(t), 0, 1
    {
      KidsKeepInv(t, q, obj, eq, Cfg());
      ghost var a := Remove(Child(t, q), obj, eq, Cfg());
      ghost var l1;
      ok, l1 := RemoveInChild(p, q, c, obj, eq, t, l);
      if !ok {
        return false, l;
      }
      WithChildMeasures(t, q, a.0, minQuad);
      ghost var t1, live1 := WithChild(t, q, a.0), pool.live;
      var merged;
      merged, l' := UnsubdivideAt(p, t1, l1);
      ShrankTrans(l, l1, l', old(pool.live), live1, pool.live);
    }

    /** The recursive remove_ call on the child in quadrant `q`, before the merge is tried. */
    method RemoveInChild(p: nat, q: Quadrant, c: nat, obj: GameObject, eq: (GameObject, GameObject) -> bool,
                         ghost t: QTree, ghost l: Slots) returns (ok: bool, ghost l': Slots)
      requires Inner() && t.Node? && Rep(t, l, nodes[..]) && Separate(l) && l.at == p && FP(l) <= pool.live
      requires TreeInv(Child(t, q), Cfg()) && c == ChildSlots(l, q).at
      modifies pool, pool.slots, nodes
      ensures Inner()
      ensures ok == Remove(Child(t, q), obj, eq, Cfg()).1
      ensures ok ==> Rep(WithChild(t, q, Remove(Child(t, q), obj, eq, Cfg()).0), l', nodes[..])
      ensures Separate(l') && l'.at == p && FP(l') <= pool.live
      ensures Shrank(l, l', old(pool.live), pool.live)
      ensures |pool.freeList| + NodeCount(Remove(Child(t, q), obj, eq, Cfg()).0)
              == |old(pool.freeList)| + NodeCount(Child(t, q))
      ensures forall s :: 0 <= s < nodes.Length && s !in FP(l) ==> nodes[s] == old(nodes[s])
      ensures !ok ==> l' == l && unchanged(pool, pool.slots, nodes)
      decreases NodeCount(t), 0, 0
    {
      ghost var lq := ChildSlots(l, q);
      ChildFacts(t, l, q, nodes[..], minQuad);
      ghost var a := Remove(Child(t, q), obj, eq, Cfg());
      ghost var lc';
      ok, lc' := RemoveAt(c, obj, eq, Child(t, q), lq);
      if !ok {
        return false, l;
      }
      ChildShrank(t, l, q, a.0, lc', old(nodes[..]), nodes[..], old(pool.live), pool.live);
      l' := WithChildSlots(l, q, lc');
    }

    /**
     * unsubdivide_: an internal node whose NW child is a leaf and whose
     * subtree holds at most capacity_ entries takes its children's
     * entries in NW, NE, SW, SE order and gives the children back to the
     * pool; anything else is left as it is.
     */
    method UnsubdivideAt(p: nat, ghost t: QTree, ghost l: Slots) returns (merged: bool, ghost l': Slots)
      requires Inner() && Rep(t, l, nodes[..]) && Separate(l) && l.at == p && FP(l) <= pool.live
      requires t.Node? && Size(t) <= capacity ==> t.nw.Leaf? && t.ne.Leaf? && t.sw.Leaf? && t.se.Leaf?
      modifies pool, pool.slots, nodes
      ensures Inner()
      ensures merged <==> t.Node? && Unsubdivide(t, Cfg()).Leaf?
      ensures Rep(Unsubdivide(t, Cfg()), l', nodes[..]) && Separate(l') && l'.at == p
      ensures Shrank(l, l', old(pool.live), pool.live)
      ensures merged ==> l.SlotNode? && pool.freeList == [l.se.at, l.sw.at, l.ne.at, l.nw.at] + old(pool.freeList)
      ensures !merged ==> l' == l && unchanged(pool, pool.slots, nodes)
      ensures |pool.freeList| + NodeCount(Unsubdivide(t, Cfg())) == |old(pool.freeList)| + NodeCount(t)
      ensures forall s :: 0 <= s < nodes.Length && s != p ==> nodes[s] == old(nodes[s])
    {
      var node := nodes[p];
      LeafIffNoNW(t, l, nodes[..]);
      if t.Node? {
        LeafIffNoNW(t.nw, l.nw, nodes[..]);
      }
      if !IsLeaf(Some(p)) && IsLeaf(node.nw) {
        var childSum := SizeAt(Some(p), t, l);
        if childSum <= capacity {
          MergeNode(p, t, l);
          assert Unsubdivide(t, Cfg()) == Merged(t);
          return true, SlotLeaf(p);
        }
      }
      return false, l;
    }

    /** The merging branch of unsubdivide_, stated on the tree the node holds. */
    method MergeNode(p: nat, ghost t: QTree, ghost l: Slots)
      requires Inner() && Rep(t, l, nodes[..]) && Separate(l) && l.at == p && FP(l) <= pool.live
      requires t.Node? && t.nw.Leaf? && t.ne.Leaf? && t.sw.Leaf? && t.se.Leaf?
      modifies pool, pool.slots, nodes
      ensures Inner() && l.SlotNode?
      ensures Rep(Merged(t), SlotLeaf(p), nodes[..])
      ensures pool.freeList == [l.se.at, l.sw.at, l.ne.at, l.nw.at] + old(pool.freeList)
      ensures pool.live == old(pool.live) - (FP(l) - {p})
      ensures NodeCount(t) == NodeCount(Merged(t)) + 4
      ensures forall s :: 0 <= s < nodes.Length && s != p ==> nodes[s] == old(nodes[s])
    {
      ghost var ns := nodes[..];
      LeafKids(t, l, ns);
      MergeAt(p, [l.nw.at, l.ne.at, l.sw.at, l.se.at]);
      MergedRep(t, l, ns, nodes[..]);
    }

    /**
     * The node's own list followed by its four children's lists, in NW,
     * NE, SW, SE order, then delete_children_.
     */
    method MergeAt(p: nat, ghost kids: seq<nat>)
      requires Inner() && p < nodes.Length && |kids| == 4
      requires nodes[p].nw == Some(kids[0]) && nodes[p].ne == Some(kids[1])
      requires nodes[p].sw == Some(kids[2]) && nodes[p].se == Some(kids[3])
      requires forall k :: 0 <= k < 4 ==> kids[k] < nodes.Length && kids[k] in pool.live
      requires forall j, k :: 0 <= j < k < 4 ==> kids[j] != kids[k]
      modifies pool, pool.slots, nodes
      ensures Inner()
      ensures nodes[p] == old(nodes[p]).(objects := old(nodes[p].objects + nodes[kids[0]].objects + nodes[kids[1]].objects
                                                        + nodes[kids[2]].objects + nodes[kids[3]].objects),
                                         nw := None, ne := None, sw := None, se := None)
      ensures pool.freeList == [kids[3], kids[2], kids[1], kids[0]] + old(pool.freeList)
      ensures pool.live == old(pool.live) - {kids[0], kids[1], kids[2], kids[3]}
      ensures forall s :: 0 <= s < nodes.Length && s != p ==> nodes[s] == old(nodes[s])
    {
      var node := nodes[p];
      var objects := node.objects + nodes[node.nw.value].objects + nodes[node.ne.value].objects
                     + nodes[node.sw.value].objects + nodes[node.se.value].objects;
      nodes[p] := node.(objects := objects);
      DeleteChildrenAt(Some(p));
      FourLinks(kids[3], kids[2], kids[1], kids[0]);
    }

    /** delete_children_: the four children go back to the pool, NW first, and the links are nulled. */
    method DeleteChildrenAt(p: Option<nat>)
      requires Inner()
      requires p.Some? ==> p.value < nodes.Length && Releasable(nodes[p.value], pool.live)
      modifies pool, pool.slots, nodes
      ensures Inner()
      ensures p.None? ==> unchanged(pool, pool.slots, nodes)
      ensures p.Some? ==>
                var n := old(nodes[p.value]);
                && pool.freeList == LinkList(n.se) + LinkList(n.sw) + LinkList(n.ne) + LinkList(n.nw) + old(pool.freeList)
                && pool.live == old(pool.live) - (LinkSet(n.nw) + LinkSet(n.ne) + LinkSet(n.sw) + LinkSet(n.se))
                && nodes[p.value] == n.(nw := None, ne := None, sw := None, se := None)
      ensures forall s :: 0 <= s < nodes.Length && (p.None? || s != p.value) ==> nodes[s] == old(nodes[s])
    {
      if p.Some? {
        var n := nodes[p.value];
        ReleaseChildren(n);
        nodes[p.value] := n.(nw := None, ne := None, sw := None, se := None);
      }
    }

    /** The four pool_.deallocate calls of delete_children_, NW first. */
    method ReleaseChildren(n: TreeNode)
      requires Inner() && Releasable(n, pool.live)
      modifies pool, pool.slots
      ensures Inner()
      ensures pool.freeList == LinkList(n.se) + LinkList(n.sw) + LinkList(n.ne) + LinkList(n.nw) + old(pool.freeList)
      ensures pool.live == old(pool.live) - (LinkSet(n.nw) + LinkSet(n.ne) + LinkSet(n.sw) + LinkSet(n.se))
    {
      ghost var f0 := pool.freeList;
      Release(n.nw);
      Release(n.ne);
      Release(n.sw);
      Release(n.se);
      Regroup(LinkList(n.se), LinkList(n.sw), LinkList(n.ne), LinkList(n.nw), f0);
    }

    /**
     * clear_: the subtree at `p` goes back to the pool in post-order, the
     * children NW, NE, SW, SE first and the node itself last; null is
     * ignored. The node array is not touched.
     */
    method ClearAt(p: Option<nat>, ghost t: QTree, ghost l: Slots)
      requires Inner()
      requires p.Some? ==> Rep(t, l, nodes[..]) && Separate(l) && l.at == p.value && FP(l) <= pool.live
      modifies pool, pool.slots
      ensures Inner()
      ensures p.Some? ==> pool.freeList == Released(l) + old(pool.freeList) && pool.live == old(pool.live) - FP(l)
      ensures p.None? ==> pool.freeList == old(pool.freeList) && pool.live == old(pool.live)
      decreases l, if p.Some? then 3 else 0
    {
      if p.None? {
        return;
      }
      ghost var f0 := pool.freeList;
      ClearChildren(nodes[p.value], t, l);
      pool.Deallocate(p);
      if t.Node? {
        ReleasedStep(l, f0);
      }
    }

    /** The four recursive clear_ calls on the links of `node`, the node at `l.at`. */
    method ClearChildren(node: TreeNode, ghost t: QTree, ghost l: Slots)
      requires Inner() && Rep(t, l, nodes[..]) && Separate(l) && FP(l) <= pool.live && node == nodes[l.at]
      modifies pool, pool.slots
      ensures Inner()
      ensures t.Leaf? ==> pool.freeList == old(pool.freeList) && pool.live == old(pool.live)
      ensures t.Node? ==>
                && pool.freeList == Released(l.se) + (Released(l.sw) + (Released(l.ne) + (Released(l.nw) + old(pool.freeList))))
                && pool.live == old(pool.live) - (FP(l) - {l.at})
      decreases l, 2
    {
      ghost var v0 := pool.live;
      ClearChild(node.nw, t, l, NWQ);
      ClearChild(node.ne, t, l, NEQ);
      ClearChild(node.sw, t, l, SWQ);
      ClearChild(node.se, t, l, SEQ);
      if t.Node? {
        KidsFootprint(l);
        SubtractFour(v0, FP(l.nw), FP(l.ne), FP(l.sw), FP(l.se));
      }
    }

    /** One clear_ call on a link of the node at `l.at`: null at a leaf, the child's slot otherwise. */
    method ClearChild(c: Option<nat>, ghost t: QTree, ghost l: Slots, ghost q: Quadrant)
      requires Inner() && Rep(t, l, nodes[..]) && Separate(l)
      requires t.Leaf? ==> c.None?
      requires t.Node? ==> c == Some(ChildSlots(l, q).at) && FP(ChildSlots(l, q)) <= pool.live
      modifies pool, pool.slots
      ensures Inner()
      ensures t.Leaf? ==> pool.freeList == old(pool.freeList) && pool.live == old(pool.live)
      ensures t.Node? ==> && pool.freeList == Released(ChildSlots(l, q)) + old(pool.freeList)
                          && pool.live == old(pool.live) - FP(ChildSlots(l, q))
      decreases l, 1
    {
      ghost var tc, lc := t, l;
      if t.Node? {
        ChildFacts(t, l, q, nodes[..], minQuad);
        tc, lc := Child(t, q), ChildSlots(l, q);
      }
      ClearAt(c, tc, lc);
    }

    /**
     * copy_tree_: the subtree stored at `p` of `src` (another tree's node
     * array) is copied into slots of this tree's pool in pre-order: a new
     * node with the boundary and the entry list, then its NW, NE, SW and
     * SE copies; null copies to null.
     */
    method CopyFrom(src: array<TreeNode>, p: Option<nat>, ghost t: QTree, ghost l: Slots)
      returns (c: Option<nat>, ghost l': Slots)
      requires Inner() && src != nodes
      requires p.Some? ==> Rep(t, l, src[..]) && Separate(l) && l.at == p.value && NodeCount(t) <= |pool.freeList|
      modifies pool, pool.slots, nodes
      ensures Inner()
      ensures p.None? ==> c.None? && pool.freeList == old(pool.freeList) && pool.live == old(pool.live)
      ensures p.Some? ==>
                && c == Some(l'.at) && Rep(t, l', nodes[..]) && Separate(l')
                && FP(l') !! old(pool.live) && pool.live == old(pool.live) + FP(l')
                && |pool.freeList| == |old(pool.freeList)| - NodeCount(t)
      ensures forall s :: 0 <= s < nodes.Length && (p.None? || s !in FP(l')) ==> nodes[s] == old(nodes[s])
      decreases l, if p.Some? then 4 else 0
    {
      if p.None? {
        return None, l;
      }
      var node := src[p.value];
      var q := CreateNode(node.boundary);
      nodes[q] := nodes[q].(objects := node.objects);
      l' := CopyChildren(src, q, node, t, l);
      c := Some(q);
    }

    /** The four recursive copy_tree_ calls of copy_tree_, for the copy `q` of `node`. */
    method CopyChildren(src: array<TreeNode>, q: nat, node: TreeNode, ghost t: QTree, ghost l: Slots)
      returns (ghost l': Slots)
      requires Inner() && src != nodes && Rep(t, l, src[..]) && Separate(l) && node == src[l.at]
      requires q < nodes.Length && q in pool.live && nodes[q] == TreeNode(node.objects, node.boundary, None, None, None, None)
      requires NodeCount(t) - 1 <= |pool.freeList|
      modifies pool, pool.slots, nodes
      ensures Inner()
      ensures Rep(t, l', nodes[..]) && Separate(l') && l'.at == q
      ensures FP(l') - {q} !! old(pool.live) && pool.live == old(pool.live) + (FP(l') - {q})
      ensures |pool.freeList| == |old(pool.freeList)| - (NodeCount(t) - 1)
      ensures forall s :: 0 <= s < nodes.Length && s !in FP(l') ==> nodes[s] == old(nodes[s])
      decreases l, 3
    {
      ghost var v0, n0 := pool.live, nodes[q];
      CopiedSum(t);
      ghost var a, A := CopyChild(src, q, NWQ, node.nw, t, l);
      ghost var v1, ns1 := pool.live, nodes[..];
      ghost var b, B := CopyChild(src, q, NEQ, node.ne, t, l);
      ghost var v2, ns2 := pool.live, nodes[..];
      ghost var c, C := CopyChild(src, q, SWQ, node.sw, t, l);
      ghost var v3, ns3 := pool.live, nodes[..];
      ghost var d, D := CopyChild(src, q, SEQ, node.se, t, l);
      if t.Node? {
        l' := SlotNode(q, a, b, c, d);
        KidsCopied(t, l', n0, v0, v1, v2, v3, pool.live, ns1, ns2, ns3, nodes[..]);
      } else {
        l' := SlotLeaf(q);
      }
    }

    /** One `copied->q = copy_tree_(node->q)`: a leaf's null link leaves the copy as it is. */
    method CopyChild(src: array<TreeNode>, q: nat, quad: Quadrant, o: Option<nat>, ghost t: QTree, ghost l: Slots)
      returns (ghost lc: Slots, ghost added: set<nat>)
      requires Inner() && src != nodes && Rep(t, l, src[..]) && Separate(l) && o == Link(src[l.at], quad)
      requires q < nodes.Length && q in pool.live
      requires Copied(t, quad) <= |pool.freeList|
      modifies pool, pool.slots, nodes
      ensures Inner()
      ensures added !! old(pool.live) && pool.live == old(pool.live) + added
      ensures |pool.freeList| == |old(pool.freeList)| - Copied(t, quad)
      ensures Outside(old(nodes[..]), nodes[..], q, added)
      ensures nodes[q] == WithLink(old(nodes[q]), quad, if t.Node? then Some(lc.at) else None)
      ensures t.Leaf? ==> added == {}
      ensures t.Node? ==> added == FP(lc) && Rep(Child(t, quad), lc, nodes[..]) && Separate(lc)
      decreases l, 2
    {
      var c;
      c, lc := CopyLinked(src, quad, o, t, l);
      added := if t.Node? then FP(lc) else {};
      ghost var ns := nodes[..];
      nodes[q] := WithLink(nodes[q], quad, c);
      if t.Node? {
        RepFrame(Child(t, quad), lc, ns, nodes[..]);
      }
    }

    /** The copy_tree_ call on the link `o` in quadrant `quad` of the node at `l.at` of `src`. */
    method CopyLinked(src: array<TreeNode>, quad: Quadrant, o: Option<nat>, ghost t: QTree, ghost l: Slots)
      returns (c: Option<nat>, ghost lc: Slots)
      requires Inner() && src != nodes && Rep(t, l, src[..]) && Separate(l) && o == Link(src[l.at], quad)
      requires Copied(t, quad) <= |pool.freeList|
      modifies pool, pool.slots, nodes
      ensures Inner()
      ensures |pool.freeList| == |old(pool.freeList)| - Copied(t, quad)
      ensures t.Leaf? ==> c.None? && pool.live == old(pool.live)
      ensures t.Node? ==>
                && c == Some(lc.at) && Rep(Child(t, quad), lc, nodes[..]) && Separate(lc)
                && FP(lc) !! old(pool.live) && pool.live == old(pool.live) + FP(lc)
      ensures forall s :: 0 <= s < nodes.Length && (t.Leaf? || s !in FP(lc)) ==> nodes[s] == old(nodes[s])
      decreases l, 1
    {
      ghost var tc, lc0 := t, l;
      if t.Node? {
        ChildFacts(t, l, quad, src[..], minQuad);
        assert o == Some(ChildSlots(l, quad).at) by {
          match quad
          case NWQ =>
          case NEQ =>
          case SWQ =>
          case SEQ =>
        }
        tc, lc0 := Child(t, quad), ChildSlots(l, quad);
      } else {
        assert o.None? by {
          match quad
          case NWQ =>
          case NEQ =>
          case SWQ =>
          case SEQ =>
        }
      }
      c, lc := CopyFrom(src, o, tc, lc0);
    }

    /** One pool_.deallocate call of delete_children_: a null link is ignored. */
    method Release(o: Option<nat>)
      requires Inner() && LinkSet(o) <= pool.live
      modifies pool, pool.slots
      ensures Inner()
      ensures pool.freeList == LinkList(o) + old(pool.freeList)
      ensures pool.live == old(pool.live) - LinkSet(o)
    {
      pool.Deallocate(o);
    }
  }
}
