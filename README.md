# MemoryManagement: a fixed-size memory pool and a quadtree built on it

This project models the core of MemoryManagement, a small C++ library. It has three parts:

- **TMemoryPool**: a fixed array of `PoolSize` slots. The free slots form an intrusive, singly linked free list: a free slot's storage holds the link to the next free slot.
- **TMemoryPoolAllocator**: an allocator-shaped adapter over one such pool.
- **QuadTree**: a region quadtree whose nodes all live in one `TMemoryPool<TreeNode, PoolSize>`. Its nodes are addressed by pool slot.

The geometry it works on is Point2D/Boundary2D and their 3D counterparts. A boundary is an axis-aligned box given by a center and a half-length. It contains the points with `min <= p < max` on every axis.

The model has two layers for the quadtree:

- `QuadTreeSpec` (quadtree_spec.dfy) holds the tree as a value, `QTree`. Each recursive private member of `QuadTree` is a function on it: `insert_`, `remove_`, `query_range_`, `subdivide_`, `unsubdivide_` and `size_`. Each function keeps the source's branches and their order. The lemmas prove what these promise:
  - insert adds exactly the one entry;
  - remove drops exactly the entries equal to the target;
  - a query returns exactly the entries inside the range;
  - the tree invariant holds throughout. Every entry lies inside its leaf's boundary. Every internal node holds more than `capacity_` entries. Nodes below the root are larger than `min_quad_`.
- `QuadTrees` (quadtree.dfy) is the imperative tree. `QuadTree` is a class with:
  - a `Pool`;
  - an array of `TreeNode` records indexed by slot, with child links as `Option<nat>` slot numbers;
  - the `root` slot;
  - `capacity` and `minQuad`.

  Each private member is a method over the array and the pool, proved to compute the matching `QuadTreeSpec` function. The proof also tracks which slots it takes from and returns to the free list. The public members keep the class invariant `Valid()`: the nodes reachable from `root` hold `tree`, they occupy exactly the live slots of the pool, and `tree` satisfies the tree invariant.

Coordinates are exact reals, not `float`. Equality of entries, which the source leaves to `GameObject`'s `operator==`, is a parameter `eq`. The source does not show that operator.

## Model

| member | source | states |
|---|---|---|
| Points2D.Origin | MemoryManagement/Point2D.h:7 | The default point is the identity of `+` on both sides. |
| Points2D.Add | MemoryManagement/Point2D.h:36-38 | Subtracting either operand from a sum gives back the other operand. |
| Points2D.Sub | MemoryManagement/Point2D.h:40-42 | The difference plus the subtrahend gives the minuend on each axis. |
| Points2D.AddCommutes | MemoryManagement/Point2D.h:36-38 | `+` on points is commutative. |
| Points3D.Origin | MemoryManagement/Point3D.h:7 | The default 3D point is the identity of `+`. |
| Points3D.Add | MemoryManagement/Point3D.h:38-40 | Subtracting either operand from a sum gives back the other, on three axes. |
| Points3D.Sub | MemoryManagement/Point3D.h:42-44 | The difference plus the subtrahend gives the minuend on each of the three axes. |
| Boundaries2D.Default | MemoryManagement/Boundary2D.h:8 | The default boundary, with zero center and zero half-length, contains no point. |
| Boundaries2D.Min | MemoryManagement/Boundary2D.h:39 | getMin plus the half-length is the center. |
| Boundaries2D.Max | MemoryManagement/Boundary2D.h:40 | getMax minus the half-length is the center. |
| Boundaries2D.Contains | MemoryManagement/Boundary2D.h:23-28 | contains holds iff the point is in the half-open box `[min, max)` on both axes. |
| Boundaries2D.HalfHalfLength | MemoryManagement/Boundary2D.h:45-47 | The quarter extent doubled is the half-length. |
| Boundaries2D.NW | MemoryManagement/Boundary2D.h:49-53 | getNW has the quarter extent; it runs from the box's min corner to its center. |
| Boundaries2D.NE | MemoryManagement/Boundary2D.h:55-59 | getNE has the quarter extent; it runs from (center.x, min.y) to (max.x, center.y). |
| Boundaries2D.SW | MemoryManagement/Boundary2D.h:61-65 | getSW has the quarter extent; it runs from (min.x, center.y) to (center.x, max.y). |
| Boundaries2D.SE | MemoryManagement/Boundary2D.h:67-71 | getSE has the quarter extent; it runs from the center to the box's max corner. |
| Boundaries2D.CornersHalfOpen | MemoryManagement/Boundary2D.h:23-28 | Containment is half-open: the min corner is inside iff the box has positive extent on both axes; the max corner is never inside. |
| Boundaries2D.QuadrantsPartition | MemoryManagement/Boundary2D.h:49-71 | A point inside a box lies in exactly one of its four quadrants. |
| Boundaries2D.QuadrantsInside | MemoryManagement/Boundary2D.h:49-71 | A point in any quadrant lies in the box. |
| Boundaries2D.IntersectsIffCommonPoint | MemoryManagement/Boundary2D.h:30-37 | For boxes of positive extent, intersects holds iff some point is contained in both. |
| Boundaries2D.Intersects | MemoryManagement/Boundary2D.h:30-37 | intersects holds for any two boxes, of any extent, that contain a common point. |
| Boundaries2D.IntersectsSymmetric | MemoryManagement/Boundary2D.h:30-37 | intersects is symmetric. |
| Boundaries3D.Default | MemoryManagement/Boundary3D.h:7 | The default 3D boundary contains no point. |
| Boundaries3D.Min | MemoryManagement/Boundary3D.h:40 | getMin plus the half-length is the center. |
| Boundaries3D.Max | MemoryManagement/Boundary3D.h:41 | getMax minus the half-length is the center. |
| Boundaries3D.Contains | MemoryManagement/Boundary3D.h:22-28 | contains holds iff the point is in `[min, max)` on all three axes. |
| Boundaries3D.IntersectsIffCommonPoint | MemoryManagement/Boundary3D.h:30-38 | For boxes of positive extent, intersects holds iff some point is in both. |
| Boundaries3D.Intersects | MemoryManagement/Boundary3D.h:30-38 | intersects in 3D holds for any two boxes that contain a common point. |
| Boundaries3D.IntersectsSymmetric | MemoryManagement/Boundary3D.h:30-38 | intersects in 3D is symmetric. |
| MemoryPool.Pool.constructor | MemoryManagement/TMemoryPool.h:8-16 | The new pool is valid and nothing is live. The free list is 0, 1, ..., n-1, with the head at slot 0 and the last slot linking to null. |
| MemoryPool.Pool.Create | MemoryManagement/TMemoryPool.h:18-26 | On an empty free list: returns null and changes nothing. Otherwise: returns the head slot, which was not live, and the free list becomes its tail. The head slot becomes live. The pool stays valid. |
| MemoryPool.Pool.Deallocate | MemoryManagement/TMemoryPool.h:28-35 | Null is ignored. A live slot is pushed on the head of the free list and stops being live. The pool stays valid. |
| MemoryPool.LinkedAt | MemoryManagement/TMemoryPool.h:38-43 | Each slot on the free list stores the link to its successor, and the last stores null. |
| MemoryPool.LinkedPop | MemoryManagement/TMemoryPool.h:20-23 | Taking the head out of the chain leaves the rest of the chain intact. |
| MemoryPool.LinkedPush | MemoryManagement/TMemoryPool.h:30-34 | Linking a slot that is not on the chain in front of the head gives a longer chain. |
| MemoryPool.DrainFreshPool | MemoryManagement/TMemoryPool.h:8-26 | On a fresh pool of n slots, n creates return slots 0 .. n-1 in order, and the next create returns null. |
| MemoryPool.DeallocateThenCreate | MemoryManagement/TMemoryPool.h:18-35 | LIFO reuse: after deallocating a live slot, the next create returns that same slot. |
| MemoryPoolAllocator.PoolAllocator.constructor | MemoryManagement/TMemoryPoolAllocator.h:41 | A fresh owned pool with every slot free. |
| MemoryPoolAllocator.PoolAllocator.Copy | MemoryManagement/TMemoryPoolAllocator.h:42 | The copy constructor copies nothing. The new allocator has its own fresh pool of the same size with every slot free. |
| MemoryPoolAllocator.PoolAllocator.MaxSize | MemoryManagement/TMemoryPoolAllocator.h:29-31 | max_size is the pool size. |
| MemoryPoolAllocator.PoolAllocator.Equals | MemoryManagement/TMemoryPoolAllocator.h:37-39 | `==` is always false, even for an allocator and itself. |
| MemoryPoolAllocator.PoolAllocator.NotEquals | MemoryManagement/TMemoryPoolAllocator.h:33-35 | `!=` is the negation of `==`, so it is always true. |
| MemoryPoolAllocator.PoolAllocator.Allocate | MemoryManagement/TMemoryPoolAllocator.h:46-49 | For n = 1 it acts as the pool's create: null when exhausted, else the head slot. |
| MemoryPoolAllocator.PoolAllocator.Deallocate | MemoryManagement/TMemoryPoolAllocator.h:51-54 | For n = 1 it acts as the pool's deallocate: the slot goes back on the head of the free list. |
| QuadTreeSpec.Size | MemoryManagement/QuadTree.h:241-246 | size_ counts every stored entry: it is the length of the tree's entry list. |
| QuadTreeSpec.InRange | MemoryManagement/QuadTree.h:154-161 | The leaf loop of query_range_ keeps exactly the entries the range contains. Its result is a sub-multiset of the input. |
| QuadTreeSpec.InRangeAppend | MemoryManagement/QuadTree.h:165-172 | Filtering a concatenation is concatenating the filtered parts. |
| QuadTreeSpec.Keep | MemoryManagement/QuadTree.h:126-132 | std::remove then erase: no entry equal to `obj` survives, and every other entry keeps its multiplicity. |
| QuadTreeSpec.KeepAppend | MemoryManagement/QuadTree.h:126-132 | Erasing from a concatenation is concatenating the erased parts. |
| QuadTreeSpec.KeepNothingEqual | MemoryManagement/QuadTree.h:127-132 | When no entry equals `obj`, erase leaves the list unchanged. |
| QuadTreeSpec.Insert | MemoryManagement/QuadTree.h:88-116 | insert_ keeps the boundary and never frees a node. Outside the boundary it refuses and changes nothing. |
| QuadTreeSpec.InsertIntoChildren | MemoryManagement/QuadTree.h:109-115 | Offering to NW, NE, SW, SE in turn keeps the node internal and with its boundary. |
| QuadTreeSpec.Subdivide | MemoryManagement/QuadTree.h:177-195 | subdivide_ splits iff the quarter extent exceeds min_quad_ on both axes. A refused split leaves the leaf unchanged; a split yields an internal node. |
| QuadTreeSpec.ReinsertAll | MemoryManagement/QuadTree.h:187-192 | Re-inserting the entries keeps the node internal and its boundary the same. |
| QuadTreeSpec.Remove | MemoryManagement/QuadTree.h:118-143 | remove_ keeps the boundary. A failed remove changes nothing. Outside the boundary it fails. |
| QuadTreeSpec.Unsubdivide | MemoryManagement/QuadTree.h:197-216 | unsubdivide_ keeps the boundary. |
| QuadTreeSpec.Query | MemoryManagement/QuadTree.h:145-175 | Every entry query_range_ returns is stored in the tree and lies in the range. |
| QuadTreeSpec.LevelDrops | MemoryManagement/QuadTree.h:177-186 | A quadrant of a box that may be split is at a strictly lower level. This is the termination measure of insert_ and subdivide_. |
| QuadTreeSpec.EntriesInside | MemoryManagement/QuadTree.h:88-106 | Under the tree invariant, every entry lies inside the root boundary. |
| QuadTreeSpec.NonRootAboveMinQuad | MemoryManagement/QuadTree.h:177-186 | Every node below the root has a half-length above min_quad_, because it was created by a split that passed the guard. |
| QuadTreeSpec.QuadrantSplit | MemoryManagement/QuadTree.h:187-192 | For entries inside a box, the four quadrant filters together give back the entries as a multiset. |
| QuadTreeSpec.SubdivideSplits | MemoryManagement/QuadTree.h:177-195 | Splitting a full leaf sends each entry to exactly one child. The children keep the invariant, and no entry is lost or duplicated. |
| QuadTreeSpec.SubdivideDistributes | MemoryManagement/QuadTree.h:187-192 | A valid leaf holds at most capacity_ entries, and subdivide_ distributes them by quadrant. |
| QuadTreeSpec.ReinsertIntoSplit | MemoryManagement/QuadTree.h:187-192 | The four-way re-insert loop into fresh children equals the quadrant distribution. |
| QuadTreeSpec.DistributeKeeps | MemoryManagement/QuadTree.h:183-193 | The distributed children keep the invariant, hold the entries as a multiset, and have the same size. |
| QuadTreeSpec.InsertRoomyLeaf | MemoryManagement/QuadTree.h:89-100 | Insert into a leaf below capacity_ appends the entry at the end of its list when the leaf's boundary contains it, leaves the leaf unchanged otherwise, and reports which. |
| QuadTreeSpec.InsertPastCapacity | MemoryManagement/QuadTree.h:101-106 | A full leaf that may not split still takes the entry, past capacity_. |
| QuadTreeSpec.InsertCorrect | MemoryManagement/QuadTree.h:88-116 | Inside the boundary, insert_ always succeeds ("should never happen" is unreachable). It adds exactly `obj` to the multiset of entries, the size grows by one, and the invariant is kept. |
| QuadTreeSpec.InsertIntoChildrenCorrect | MemoryManagement/QuadTree.h:109-115 | Some child takes the entry; the node gains exactly `obj` and keeps the invariant. |
| QuadTreeSpec.UnsubdivideCorrect | MemoryManagement/QuadTree.h:197-216 | unsubdivide_ keeps the entry order and the invariant. It merges iff the node holds at most capacity_ entries. |
| QuadTreeSpec.RemoveCorrect | MemoryManagement/QuadTree.h:118-143 | remove_ keeps the invariant. It succeeds iff the size drops. It removes only entries equal to `obj`. |
| QuadTreeSpec.RemoveDeletesAll | MemoryManagement/QuadTree.h:118-143 | When equal entries share obj's position, remove_ leaves exactly the entry list with every equal entry erased. |
| QuadTreeSpec.RemoveFindsAll | MemoryManagement/QuadTree.h:118-143 | Under the same condition, remove_ succeeds iff some stored entry equals `obj`. |
| QuadTreeSpec.PruneIsSafe | MemoryManagement/QuadTree.h:148-151 | Skipping a node whose boundary misses the range loses no result. |
| QuadTreeSpec.QueryMatchesFilter | MemoryManagement/QuadTree.h:145-175 | query_range_ returns exactly the stored entries the range contains, in NW, NE, SW, SE order. |
| QuadTrees.QuadTree.IsLeaf | MemoryManagement/QuadTree.h:84-86 | is_leaf_: a null link is no leaf, and on a represented tree a node passes the test iff the tree there is a leaf. |
| QuadTrees.LeafIffNoNW | MemoryManagement/QuadTree.h:84-86 | is_leaf_: a node's NW link is null iff the node is a leaf. |
| QuadTrees.SmallNodeHasLeafKids | MemoryManagement/QuadTree.h:197-211 | Under the invariant, an internal node with at most capacity_ entries has four leaf children. So testing only NW before deleting the children loses no grandchild. |
| QuadTrees.ReleasedIsFootprint | MemoryManagement/QuadTree.h:231-239 | clear_ gives back exactly the slots of the subtree, each once. |
| QuadTrees.QuadTree.constructor | MemoryManagement/QuadTree.h:16-18 | The new tree is valid and is an empty leaf with the given boundary at slot 0. |
| QuadTrees.QuadTree.Copy | MemoryManagement/QuadTree.h:20-22 | The copy constructor builds, in a fresh pool, a valid tree equal to the other one, using one slot per node. |
| QuadTrees.QuadTree.CopyRoot | MemoryManagement/QuadTree.h:21 | `root_ = copy_tree_(other.root_)` on an empty pool gives a valid tree equal to the other one. |
| QuadTrees.QuadTree.CopyTree | MemoryManagement/QuadTree.h:248-259 | The copied nodes hold the other tree and occupy exactly the live slots. |
| QuadTrees.QuadTree.CopyFrom | MemoryManagement/QuadTree.h:248-259 | copy_tree_: null copies to null. Otherwise the copy, rooted at a newly taken slot, represents the same tree as the source node. It takes exactly NodeCount(t) slots that were free and leaves every other node alone. |
| QuadTrees.QuadTree.CreateNode | MemoryManagement/QuadTree.h:78-82 | create_node_ pops the free-list head and puts an empty node with the boundary there. |
| QuadTrees.QuadTree.SizeAt | MemoryManagement/QuadTree.h:241-246 | size_ on the node array is Size of the tree held there, and 0 for null. |
| QuadTrees.QuadTree.QueryAt | MemoryManagement/QuadTree.h:145-175 | query_range_ on the node array computes Query of the tree held there. |
| QuadTrees.QuadTree.InsertAt | MemoryManagement/QuadTree.h:88-116 | insert_ on the node array computes Insert. It takes only free slots and changes no node outside the new subtree. |
| QuadTrees.QuadTree.InsertChildrenAt | MemoryManagement/QuadTree.h:109-115 | The four calls on the children compute InsertIntoChildren. |
| QuadTrees.QuadTree.SubdivideAt | MemoryManagement/QuadTree.h:177-195 | subdivide_ on the node array computes Subdivide and takes exactly the slots of the new children. |
| QuadTrees.QuadTree.CreateChildren | MemoryManagement/QuadTree.h:183-186 | Four create_node_ calls take four distinct free slots with the four quadrant boundaries and link them under the node. |
| QuadTrees.QuadTree.SplitLeaf | MemoryManagement/QuadTree.h:183-186 | The leaf becomes a node with four empty quadrant leaves; its former objects are returned. |
| QuadTrees.QuadTree.SplitAndReinsert | MemoryManagement/QuadTree.h:183-193 | subdivide_ after its guard: the node's slots then hold ReinsertAll of its old entries into the four fresh quadrant leaves. It takes only free slots, one per node it adds, and leaves every slot outside the subtree unchanged. |
| QuadTrees.QuadTree.ReinsertEach | MemoryManagement/QuadTree.h:187-192 | The loop over the objects computes ReinsertAll on the node array. |
| QuadTrees.EraseEqual | MemoryManagement/QuadTree.h:126-132 | The std::remove/erase loop keeps exactly Keep(objects, obj): the entries not equal to `obj`, in their order. |
| QuadTrees.QuadTree.RemoveAt | MemoryManagement/QuadTree.h:118-143 | remove_ on the node array computes Remove. It only returns slots of the subtree to the pool. A failed remove changes nothing. |
| QuadTrees.QuadTree.UnsubdivideAt | MemoryManagement/QuadTree.h:197-216 | unsubdivide_ computes Unsubdivide. On a merge the four child slots go back NW first, so SE ends on top of the free list; otherwise nothing changes. |
| QuadTrees.QuadTree.MergeNode | MemoryManagement/QuadTree.h:202-211 | The node takes its own list followed by the four children's, and the children's slots go back. |
| QuadTrees.QuadTree.MergeAt | MemoryManagement/QuadTree.h:202-211 | The appends and delete_children_ on the array: the concatenated objects, four freed slots, no other node touched. |
| QuadTrees.QuadTree.DeleteChildrenAt | MemoryManagement/QuadTree.h:218-229 | delete_children_ deallocates the four children NW first, so SE ends on top of the free list, and nulls the links. A null node is a no-op, and no other node changes. |
| QuadTrees.QuadTree.ClearAt | MemoryManagement/QuadTree.h:231-239 | clear_ returns every slot of the subtree, children before the node, in the order Released gives, and makes none of them live. |
| QuadTrees.QuadTree.InsertObject | MemoryManagement/QuadTree.h:43-45 | insert keeps the tree valid and computes Insert. It succeeds iff the point is inside the root boundary, and then adds exactly that entry. |
| QuadTrees.QuadTree.RemoveObject | MemoryManagement/QuadTree.h:47-49 | remove keeps the tree valid and computes Remove. It succeeds iff the size drops, and removes only entries equal to `obj`. |
| QuadTrees.QuadTree.Count | MemoryManagement/QuadTree.h:39-41 | size is the number of stored entries. |
| QuadTrees.QuadTree.QueryRange | MemoryManagement/QuadTree.h:51-53 | queryRange returns exactly the stored entries inside the range, in entry order. |
| QuadTrees.QuadTree.ClearAsWritten | MemoryManagement/QuadTree.h:35-37 | clear as written frees every node, the root included, and root_ is left pointing at a free slot. The class invariant no longer holds. |
| QuadTrees.QuadTree.Clear | MemoryManagement/QuadTree.h:35-37 | clear as intended: the tree becomes an empty leaf with the old root boundary and stays valid. |

## Left out

- The `std::mutex` in TMemoryPool is left out. Each `create` and `deallocate` is one atomic step, because the model has no concurrency.
- `float` rounding is not modelled; coordinates are exact reals. The partition and termination lemmas depend on exact halving.
- `print`, `print_` and every `operator<<` are output only and are not modelled. main.cpp is a demo driver and is not part of this model.
- The default constructor of QuadTree leaves `capacity_` uninitialised. It is not modelled; the model's constructor takes the capacity.
- `QuadTree::operator=` is not modelled. It copies the other tree into this pool without returning the old tree's slots, and it overwrites `capacity_` and `min_quad_`, which the model holds as constants.
- QuadTrees.QuadTree.InsertObject: requires enough free slots for the nodes the insert creates. The source dereferences a null `create_node_` result when the pool runs out, which is undefined behaviour.
- QuadTrees.QuadTree.constructor: requires `minQuad.x > 0`, and so do the insert functions of QuadTreeSpec, because the depth measure that shows insert_ terminates is taken on the x axis. The model leaves out every `min_quad_` with `x <= 0`. That includes `x <= 0 < y`, such as (0, 1), which the source accepts: the y test of subdivide_ (QuadTree.h:180) still stops splitting there. Only when both axes are at or below 0 does a cluster of equal points make insert_ split without end in exact arithmetic.
- QuadTrees.QuadTree.RemoveAt: requires the tree invariant. unsubdivide_ inspects only NW, so on a tree that breaks the invariant it could drop grandchildren. `RemoveObject` still requires only `Valid()`, which includes the invariant.
- The appends at QuadTree.h:202-210 go through a `const` reference and would not compile as written. They are modelled as the intended append to the node's own list.
- `create_node_` calls `pool_.create<size_t>(capacity_)`, which TMemoryPool.h does not declare. It is modelled as `create()` followed by an empty `TreeNode` with the boundary; `objects.reserve` has no observable effect.
- `copy_tree_` is declared `const` but allocates from the pool through the non-const `create_node_`. It is modelled as a method that changes the pool.
- insert_ and remove_ call NW, NE, SW and SE one after another. The model walks the quadrants in that order through a helper indexed by quadrant.
- TMemoryPoolAllocator's `address`, `construct`, `destroy`, the converting constructor and `rebind` are raw-storage mechanics and are not modelled. The model allocates and deallocates pool slots, not typed storage.
- MemoryPoolAllocator.PoolAllocator.Allocate and Deallocate require `n == 1`, as the source's `assert` does. They do not model a build where that assert is compiled out.
- GameObject is a datatype with an id and a position. Its `operator==`, which `std::remove` needs, is not shown in the source; it is the parameter `eq`.
- QuadTreeSpec.Query: the function's own contract states only soundness. Completeness and order are proved separately in QueryMatchesFilter.

## Findings

| source | as written | input that shows it | evidently intended | confidence | as-written member | corrected member |
|---|---|---|---|---|---|---|
| MemoryManagement/QuadTree.h:35-37 | `clear()` runs `clear_(root_)`, which deallocates the root as well, and leaves `root_` pointing at that freed slot | any tree: after `clear()` the root's slot is the head of the free list, so the next `insert` writes into a free slot and the next `create` hands it out again | clear empties the tree but keeps a usable root node with the same boundary | not executed | QuadTrees.QuadTree.ClearAsWritten | QuadTrees.QuadTree.Clear |
