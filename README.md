# A verified model of a Barnes-Hut quadtree and its centre-of-mass pass

This project models two pieces of a Barnes-Hut N-body step:

- The region quadtree (`Quadtree.java`). It is a mutable spatial index. Each node is a
  leaf, empty or holding one element, or an internal node with four children.
  - Insertion is bounds-checked, and an occupied leaf splits into an internal node.
  - Quadrant selection picks the child for a position.
  - A post-order fold is driven by a folder with three visits.
  - A listing maps every node's path to its region.
  - A truncated descent, driven by a predicate on regions, returns a frontier of paths.
- The centre-of-mass aggregation (`MassSimulation.java`).
  - Merging two mass points.
  - The `CalculateWeights` folder, which fills a path-to-mass-point table.
  - The step that builds the tree, fills the table and, for every particle, looks up the
    frontier its opening test selects, dropping missing entries and the particle's own point.

Modules:

- `Options`: the optional value that stands for a nullable reference.
- `Geometry`: points and half-open rectangles with their north, south, west and east
  halves, and the lemma that the halves split a rectangle exactly.
- `QuadtreeSpec`: the value-level model.
  - `Tree` is a node.
  - `Dir` is quadrant selection.
  - `Ins` is insertion, with the split.
  - `Fold` is the post-order fold.
  - `Regions` is the path-to-region listing.
  - `Fitting` is the truncated descent.
  - `WellFormed` is the structural invariant.
- `QuadtreeLemmas`: insertion terminates for a position that differs from every stored one,
  adds exactly its element, keeps the invariant, and does not depend on the split budget.
- `QuadtreePaths`: the node at a path; the keys of the region listing; the frontier of the
  descent never holds a path with one of its extensions; the fold visits every node once,
  in post-order.
- `Quadtree`: the classes.
  - `Node` holds `nw`/`ne`/`sw`/`se`/`elem` fields that insertion updates in place.
  - `Quadtree` holds an `inner` root that insertion replaces.
  - Each object carries a ghost `Contents` (its `Tree` value) and a ghost footprint `Repr`,
    and every method is proved against the functions of `QuadtreeSpec`.
- `MassSimulation`: mass points and `Merge`, the folder `Weights` and its table `TableOf`,
  the class `CalculateWeights`, the lookup and the self-filter as loops, and the step
  `RunSimulation` up to the integration.

A stored element is a particle handle: an id, a position and a mass. Masses and coordinates
are `real`.

## Model

| member | source | states |
|---|---|---|
| Quadtree.Quadtree.constructor | src/main/java/somephysicsthing/solarsystem/quadtree/Quadtree.java:23-26 | the root region is the rectangle at (0, 0) of the given width and height, the root is an empty leaf over it, and the tree is valid |
| Quadtree.Quadtree.Insert | src/main/java/somephysicsthing/solarsystem/quadtree/Quadtree.java:28-34 | returns true exactly when the position lies in the root region; when false the tree is unchanged; when true the stored elements are the old ones plus the new one (as multisets) and the tree is what `Ins` gives for every sufficient split budget; either way the new tree is `Inserted` of the old one; the tree stays valid and well formed |
| QuadtreeLemmas.InsCorrect | src/main/java/somephysicsthing/solarsystem/quadtree/Quadtree.java:28-34 | for a position in the root region that differs from every stored one, some split budget suffices, the element is added exactly once, the invariant and the root region are kept, and all sufficient budgets give the same tree |
| QuadtreeLemmas.Inserted | src/main/java/somephysicsthing/solarsystem/quadtree/Quadtree.java:28-34 | the whole-tree insert as a function of the old tree: a position outside the root region leaves the tree as it was; one inside, distinct from every stored one, gives a well-formed tree over the same region holding the old elements and the new one |
| Quadtree.Quadtree.ApplyFold | src/main/java/somephysicsthing/solarsystem/quadtree/Quadtree.java:36-39 | the folder's final state and result are those of the post-order fold from the root with the empty path |
| Quadtree.Quadtree.GetRegions | src/main/java/somephysicsthing/solarsystem/quadtree/Quadtree.java:45-52 | the map returned is the path-to-region listing of the whole tree |
| Quadtree.Quadtree.GetPathsFitting | src/main/java/somephysicsthing/solarsystem/quadtree/Quadtree.java:59-67 | the set returned is the frontier of the truncated descent from the root |
| QuadtreeSpec.Dir | src/main/java/somephysicsthing/solarsystem/quadtree/Quadtree.java:84-99 | quadrant selection, north tested and then west; for a point inside the region, the selected quadrant contains it |
| QuadtreeSpec.QuadrantMembership | src/main/java/somephysicsthing/solarsystem/quadtree/Quadtree.java:84-99 | a quadrant holds a point exactly when the node's region holds it and quadrant selection (north tested, then west, independently) picks that quadrant |
| Geometry.HalvesPartition | src/main/java/somephysicsthing/solarsystem/quadtree/Quadtree.java:110-116 | the north and south halves of a region split it without gap or overlap, and so do the west and east halves |
| Quadtree.Node.InitInternal | src/main/java/somephysicsthing/solarsystem/quadtree/Quadtree.java:110-116 | a new internal node over `b` has four fresh empty leaves over west-of-north, east-of-north, west-of-south and east-of-south of `b` |
| Quadtree.Node.InitLeaf | src/main/java/somephysicsthing/solarsystem/quadtree/Quadtree.java:216-219 | a new leaf is empty, over the given region |
| Quadtree.Node.InsertBelow | src/main/java/somephysicsthing/solarsystem/quadtree/Quadtree.java:126-137 | an internal node inserts into the child quadrant selection picks, replaces that child by the node returned, and returns itself |
| Quadtree.Node.ReplaceNW | src/main/java/somephysicsthing/solarsystem/quadtree/Quadtree.java:130 | the NW child becomes the result of inserting into it; the other children are unchanged; the node stays valid |
| Quadtree.Node.ReplaceNE | src/main/java/somephysicsthing/solarsystem/quadtree/Quadtree.java:131 | the NE child becomes the result of inserting into it; the other children are unchanged; the node stays valid |
| Quadtree.Node.ReplaceSW | src/main/java/somephysicsthing/solarsystem/quadtree/Quadtree.java:132 | the SW child becomes the result of inserting into it; the other children are unchanged; the node stays valid |
| Quadtree.Node.ReplaceSE | src/main/java/somephysicsthing/solarsystem/quadtree/Quadtree.java:133 | the SE child becomes the result of inserting into it; the other children are unchanged; the node stays valid |
| Quadtree.Node.Split | src/main/java/somephysicsthing/solarsystem/quadtree/Quadtree.java:227-230 | an occupied leaf is replaced by a fresh internal node over the same region whose only element, the leaf's, sits in the empty leaf of the quadrant selected for it |
| QuadtreeSpec.SplitPlaced | src/main/java/somephysicsthing/solarsystem/quadtree/Quadtree.java:227-230 | inserting the old element into four empty quadrants places it in the quadrant selected for it |
| Quadtree.Node.Insert | src/main/java/somephysicsthing/solarsystem/quadtree/Quadtree.java:234-243 | an empty leaf takes the element and returns itself; an occupied leaf returns a fresh internal node over the same region; an internal node returns itself; the node's value becomes `Ins` of the old value |
| QuadtreeLemmas.InsElements | src/main/java/somephysicsthing/solarsystem/quadtree/Quadtree.java:234-243 | insertion adds exactly the inserted element to the multiset of stored elements |
| QuadtreeLemmas.InsWellFormed | src/main/java/somephysicsthing/solarsystem/quadtree/Quadtree.java:126-137 | insertion of an element inside the region keeps every occupied leaf's element inside its leaf and every internal node's children over its four quadrants, and keeps the node's region |
| QuadtreeLemmas.CanInsertFromDistinct | src/main/java/somephysicsthing/solarsystem/quadtree/Quadtree.java:227-243 | an element inside the region whose position differs from every stored one is inserted after finitely many splits |
| QuadtreeLemmas.CoincidentNeverApart | src/main/java/somephysicsthing/solarsystem/quadtree/Quadtree.java:227-243 | within one region, no number of successive splits puts a position and itself into different quadrants |
| QuadtreeLemmas.ElementsInBounds | src/main/java/somephysicsthing/solarsystem/quadtree/Quadtree.java:227-243 | every element stored in a well-formed subtree lies inside that subtree's region, so descending by quadrant selection towards a stored position follows the element |
| QuadtreeLemmas.CoincidentBlocks | src/main/java/somephysicsthing/solarsystem/quadtree/Quadtree.java:227-243 | for a well-formed tree, inserting an element at the position of any stored element can never be carried out, whatever the split budget: the descent reaches that element's leaf and the splitting never separates the two |
| QuadtreeLemmas.InsFuelIndependent | src/main/java/somephysicsthing/solarsystem/quadtree/Quadtree.java:234-243 | the tree insertion produces is the same for every sufficient split budget |
| Quadtree.Node.ApplyFold | src/main/java/somephysicsthing/solarsystem/quadtree/Quadtree.java:139-249 | the folder state and result are those of the post-order fold: an internal node folds NW, NE, SW and SE with the path extended by each direction, then visits itself with its own path; a leaf makes the empty visit or the leaf visit according to its occupancy |
| QuadtreePaths.FoldTrace | src/main/java/somephysicsthing/solarsystem/quadtree/Quadtree.java:139-157 | a folder that records the path of each visit ends with exactly the node paths in visiting order: each child subtree in NW, NE, SW, SE order, then the node |
| QuadtreePaths.FoldPostOrder | src/main/java/somephysicsthing/solarsystem/quadtree/Quadtree.java:139-157 | the fold visits exactly the paths of the tree's nodes, each once, in post-order: descendants before their ancestor, earlier directions before later ones |
| Quadtree.Node.GetRegions | src/main/java/somephysicsthing/solarsystem/quadtree/Quadtree.java:160-254 | the collector gains the listing of the subtree: every node, internal or leaf, occupied or not, adds its own path and region, an internal node before its four subtrees |
| QuadtreePaths.RegionsOfTree | src/main/java/somephysicsthing/solarsystem/quadtree/Quadtree.java:160-178 | the listing has a key exactly for the path of every node, including empty leaves, and maps it to that node's region |
| Quadtree.Node.GetPathsFitting | src/main/java/somephysicsthing/solarsystem/quadtree/Quadtree.java:181-262 | the collector gains the frontier of the subtree: an internal node whose region passes the test adds only its own path, otherwise its four subtrees add theirs; a leaf adds its path exactly when it is occupied, without consulting the test |
| QuadtreePaths.FittingAt | src/main/java/somephysicsthing/solarsystem/quadtree/Quadtree.java:181-203 | a path is returned exactly when the descent along it passes only internal nodes failing the test and ends at an occupied leaf or at an internal node passing it |
| QuadtreePaths.FittingAntichain | src/main/java/somephysicsthing/solarsystem/quadtree/Quadtree.java:181-186 | no returned path is a proper prefix of another returned path |
| QuadtreePaths.FittingCovers | src/main/java/somephysicsthing/solarsystem/quadtree/Quadtree.java:257-262 | every occupied leaf has a returned path on its own path: itself or the internal node at which the descent stopped |
| MassSimulation.Merge | src/main/java/somephysicsthing/solarsystem/MassSimulation.java:167-178 | the merged mass is the sum of the masses in every case, the merged point is linked to no particle, and when the masses sum to zero the position is the midpoint |
| MassSimulation.MergeCentroid | src/main/java/somephysicsthing/solarsystem/MassSimulation.java:175-177 | when the masses do not sum to zero, the merged point's moment (position times mass) is the sum of the two moments: its position is the mass-weighted centroid |
| MassSimulation.MergeCommutes | src/main/java/somephysicsthing/solarsystem/MassSimulation.java:167-178 | merging is symmetric in its two points |
| MassSimulation.MergeMoment | src/main/java/somephysicsthing/solarsystem/MassSimulation.java:167-178 | for masses that are not negative, merging keeps the total moment, the zero-sum case included |
| MassSimulation.CentreOfMassLinked | src/main/java/somephysicsthing/solarsystem/MassSimulation.java:137-153 | the point computed for a node is linked to a particle exactly when the node is an occupied leaf holding that particle |
| MassSimulation.CalculateWeights.constructor | src/main/java/somephysicsthing/solarsystem/MassSimulation.java:192-194 | a new folder's table is empty |
| MassSimulation.CalculateWeights.Calculate | src/main/java/somephysicsthing/solarsystem/MassSimulation.java:196-199 | folding the tree adds the entries `TableOf` lists to the folder's table, and the filled table is returned |
| MassSimulation.Weights | src/main/java/somephysicsthing/solarsystem/MassSimulation.java:203-222 | the three visitors of the centre-of-mass pass: an empty leaf leaves the table as it is and returns a massless point; an occupied leaf and an internal node record the point they return under their own path, change no other entry, and return a point carrying the particle's mass and id or the four children's total mass and no link |
| MassSimulation.WeightsFold | src/main/java/somephysicsthing/solarsystem/MassSimulation.java:203-222 | the fold with the weights folder writes nothing for an empty leaf, writes each occupied leaf's point and each internal node's merged point under its path, and returns the subtree's centre of mass |
| MassSimulation.TableOfTree | src/main/java/somephysicsthing/solarsystem/MassSimulation.java:196-222 | the table's keys are exactly the paths of internal nodes and occupied leaves, and each holds the centre of mass of its subtree |
| MassSimulation.RootMass | src/main/java/somephysicsthing/solarsystem/MassSimulation.java:218-222 | the mass at the root of a subtree is the sum of the masses of the elements stored in it |
| MassSimulation.QuadMass | src/main/java/somephysicsthing/solarsystem/MassSimulation.java:218-222 | the mass an internal node's point carries is the sum of the masses of its four children's points |
| MassSimulation.RootMoment | src/main/java/somephysicsthing/solarsystem/MassSimulation.java:218-222 | for masses that are not negative, the moment at the root of a subtree is the total moment of its elements, so its position is their mass-weighted centroid |
| MassSimulation.PresentMembers | src/main/java/somephysicsthing/solarsystem/MassSimulation.java:57-60 | the lookup keeps exactly the table entries of the listed paths that have one |
| MassSimulation.PresentAll | src/main/java/somephysicsthing/solarsystem/MassSimulation.java:57-60 | when every path has an entry, the lookup drops nothing and keeps the order |
| MassSimulation.FittingInTable | src/main/java/somephysicsthing/solarsystem/MassSimulation.java:57-60 | every path of the frontier has an entry in the table filled for the same tree, so the null filter never drops a point |
| MassSimulation.LookUp | src/main/java/somephysicsthing/solarsystem/MassSimulation.java:57-60 | the paths are taken in some order that lists each path of the set exactly once, and the points are their table entries in that order with missing ones dropped; whatever the order, a point is returned exactly when it is the entry of one of the paths |
| MassSimulation.WithoutLinkedMembers | src/main/java/somephysicsthing/solarsystem/MassSimulation.java:112-114 | the self-filter keeps exactly the points not linked to the particle |
| MassSimulation.ExcludeSelf | src/main/java/somephysicsthing/solarsystem/MassSimulation.java:112-114 | the loop keeps, in order, the points not linked to the particle |
| MassSimulation.Built | src/main/java/somephysicsthing/solarsystem/MassSimulation.java:40-44 | the tree the step builds, as `Inserted` folded over the particles in order from an empty leaf over the region: well formed over the region, holding exactly the particles inside it |
| MassSimulation.BuiltSingle | src/main/java/somephysicsthing/solarsystem/MassSimulation.java:40-44 | a single particle inside the region is stored in the root leaf itself, with no split; one outside leaves the root an empty leaf |
| MassSimulation.BuildTree | src/main/java/somephysicsthing/solarsystem/MassSimulation.java:40-44 | the tree is exactly `Built` of the particles over the region, the particles inserted one by one in their order into a fresh tree; so it stores exactly the particles inside the region (as a multiset) and is valid |
| MassSimulation.InsertNext | src/main/java/somephysicsthing/solarsystem/MassSimulation.java:42-44 | inserting the next particle, its result dropped, keeps the tree valid and takes the tree built from the first n particles to the one built from the first n + 1 |
| MassSimulation.GatherAll | src/main/java/somephysicsthing/solarsystem/MassSimulation.java:48-62 | for every particle, in order, the points used are the table entries of the frontier its opening test selects, missing entries dropped and its own point removed |
| MassSimulation.ProcessTree | src/main/java/somephysicsthing/solarsystem/MassSimulation.java:46-68 | on a valid tree, the table is what the weights fold fills, each particle's points are gathered from it as above, and the region listing of the tree is returned |
| MassSimulation.RunSimulation | src/main/java/somephysicsthing/solarsystem/MassSimulation.java:39-69 | the tree is `Built` of the particles over the region, so it is well formed over the region and stores the particles inside it; the table is the one the weights fold fills for that tree; each particle's points are gathered as above; the region listing of that tree is returned |
| MassSimulation.SingleParticleAlone | src/main/java/somephysicsthing/solarsystem/MassSimulation.java:39-69 | with a single particle inside the region, whatever its opening test, the step gathers no point for it (its own point is the only one and is dropped), and the region listing is the root alone |

## Left out

- The integrator and the force law are not modelled: `calcValuesFromGravity` past its filter, `calcAccelForPoint`, `calcAccelInner`, and the write-back of positions and velocities (`setPosition`, `setVelocity`). They are floating-point kinematics (a square root, normalisation, a clamp to 1, NaN checks) with no exact contract. `RunSimulation` stops where the points for each particle are known.
- The opening test is taken as a parameter `opening`, giving each particle its test on regions; its float arithmetic (average side over distance against theta) is not modelled.
- Floating point is not modelled: masses and coordinates are exact `real`, so the float literals `0.5f` and `1.0f` are exact and rounding is not represented.
- `parallelStream` and the concurrent per-particle work are modelled as a sequential loop over the particles in their order.
- The repository's `Vec2`, `Rectangle` and `Bounded` types are not part of this model. `Geometry.Rect` stands in for them as a half-open box `[x, x + w) x [y, y + h)` whose corner is (x, y), with north the half of smaller y and west the half of smaller x. The four quadrants then partition a region exactly, and a point on a shared boundary belongs to the south or east half; the repository's containment may resolve such ties otherwise. Reading the root region `Rectangle(0, 0, width, height)` (Quadtree.java:24) as a box with its corner at (0, 0) is an assumption of the model, since the constructor is not part of it; were (x, y) the centre instead, the root containment test and every quadrant would differ. The region's "position" accessor is used only by the opening test and is left out with it.
- Java reference identity of a particle is modelled by its id: a mass point's linked element is an optional id, and the self-filter compares ids.
- The stack of directions shared by the traversals is modelled as a path value passed down, and the caller-supplied `HashMap`/`HashSet` collectors are passed in and returned as values.
- The folder interface is modelled by a `Folder` value of three functions that take and return the folder's state. `CalculateWeights`' table is that state: `Calculate` folds with it and writes the final table back into the object's field.
- `HashSet` iteration order is modelled by an arbitrary enumeration (`LookUp` returns the order it used as a ghost value).
- The `LeafNode(bounds, elem)` constructor is not modelled because nothing calls it; leaves are made empty and filled by insertion.
- The constructors' default constants (theta 1.2, g 1e-6), `getBounded`, the accessors of `MassyPoint` and `toString` are not modelled.
- Quadtree.Quadtree.Insert: requires an in-region position to differ from every stored one, because for an equal position the repository's recursion never stops splitting and in practice ends in a stack overflow (`QuadtreeLemmas.CoincidentBlocks`). The node methods take a ghost split budget with `CanInsert` as precondition in place of a termination argument the source does not have.
- MassSimulation.BuildTree: requires that no two particles inside the region share a position, for the same reason.
- MassSimulation.RunSimulation: requires that no two particles inside the region share a position, for the same reason; the repository's step does not check this, and when two particles coincide its insertion recurses without bound.
- MassSimulation.GatherAll: the self-filter compares ids, so the model takes particle ids to be unique, as reference identity is; two distinct particles given the same id would each lose the other's point too. `RunSimulation` inherits this reading.
- MassSimulation.MergeMoment: is stated for masses that are not negative only. With masses of opposite sign summing to zero, the midpoint rule does not keep the moment.
- MassSimulation.RootMoment: is stated for masses that are not negative only, for the same reason.
