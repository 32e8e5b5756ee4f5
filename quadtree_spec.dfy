/** The value-level model of the region quadtree: the shape of a tree, quadrant selection,
    insertion (with the split of an occupied leaf), the post-order fold driven by a folder,
    the path-to-region listing and the truncated descent that returns a frontier of paths.
    The classes in module Quadtree are proved against these functions. */
module QuadtreeSpec {
  import opened Options
  import opened Geometry

  datatype Direction = NW | NE | SW | SE

  /** A path from the root: the sequence of quadrants taken. */
  type Path = seq<Direction>

  /** A stored element: a handle on a particle, with the position and mass the core reads. */
  datatype Elem = Elem(id: nat, pos: Vec2, mass: real)

  /** A node: a leaf (empty or holding one element) or an internal node with four children. */
  datatype Tree =
    | Leaf(bounds: Rect, elem: Option<Elem>)
    | Internal(bounds: Rect, nw: Tree, ne: Tree, sw: Tree, se: Tree)

  /** The region of the child in direction `d`, composed as the internal node's
      constructor composes it (west/east first, then north/south). */
  function Quadrant(b: Rect, d: Direction): Rect {
    match d
    case NW => b.West().North()
    case NE => b.East().North()
    case SW => b.West().South()
    case SE => b.East().South()
  }

  /** Quadrant selection: north is tested, then west, independently. */
  function Dir(b: Rect, p: Vec2): (d: Direction)
    ensures b.Contains(p) ==> Quadrant(b, d).Contains(p)
  {
    var inTop := b.North().Contains(p);
    var inLeft := b.West().Contains(p);
    if inTop then (if inLeft then NW else NE)
    else (if inLeft then SW else SE)
  }

  /** The quadrants partition their parent, and quadrant selection picks the one quadrant
      that holds the point. */
  lemma QuadrantMembership(b: Rect, p: Vec2, d: Direction)
    ensures Quadrant(b, d).Contains(p) <==> b.Contains(p) && Dir(b, p) == d
  {
  }

  lemma QuadrantSize(b: Rect, d: Direction)
    ensures Quadrant(b, d).w == b.w / 2.0 && Quadrant(b, d).h == b.h / 2.0
  {
  }

  function Child(t: Tree, d: Direction): Tree
    requires t.Internal?
  {
    match d
    case NW => t.nw
    case NE => t.ne
    case SW => t.sw
    case SE => t.se
  }

  /** A fresh internal node: four empty leaves over the four quadrants. */
  function EmptyQuads(b: Rect): Tree {
    Internal(b, Leaf(Quadrant(b, NW), None), Leaf(Quadrant(b, NE), None),
             Leaf(Quadrant(b, SW), None), Leaf(Quadrant(b, SE), None))
  }

  /** A fresh internal node holding `e` in the quadrant selected for it: the node a split
      produces before the incoming element is inserted (see SplitPlaced). */
  function Placed(b: Rect, e: Elem): Tree {
    var q := EmptyQuads(b);
    match Dir(b, e.pos)
    case NW => q.(nw := Leaf(Quadrant(b, NW), Some(e)))
    case NE => q.(ne := Leaf(Quadrant(b, NE), Some(e)))
    case SW => q.(sw := Leaf(Quadrant(b, SW), Some(e)))
    case SE => q.(se := Leaf(Quadrant(b, SE), Some(e)))
  }

  /** The structural invariant: an occupied leaf's element lies in the leaf's region, and an
      internal node's children cover its four quadrants. */
  predicate WellFormed(t: Tree) {
    match t
    case Leaf(b, None) => true
    case Leaf(b, Some(e)) => b.Contains(e.pos)
    case Internal(b, nw, ne, sw, se) =>
      nw.bounds == Quadrant(b, NW) && ne.bounds == Quadrant(b, NE) &&
      sw.bounds == Quadrant(b, SW) && se.bounds == Quadrant(b, SE) &&
      WellFormed(nw) && WellFormed(ne) && WellFormed(sw) && WellFormed(se)
  }

  /** The stored elements, children in NW, NE, SW, SE order. */
  function Elements(t: Tree): seq<Elem> {
    match t
    case Leaf(_, None) => []
    case Leaf(_, Some(e)) => [e]
    case Internal(_, nw, ne, sw, se) => Elements(nw) + Elements(ne) + Elements(sw) + Elements(se)
  }

  /** `a` and `c` land in different quadrants within `k` successive splits of `b`. */
  predicate Apart(b: Rect, a: Vec2, c: Vec2, k: nat)
    decreases k
  {
    k > 0 && (Dir(b, a) != Dir(b, c) || Apart(Quadrant(b, Dir(b, a)), a, c, k - 1))
  }

  /** Inserting `p` into `t` does at most `fuel` successive splits: the leaf that `p` reaches is
      empty, or its element and `p` are told apart within `fuel` splits. */
  predicate CanInsert(t: Tree, p: Elem, fuel: nat) {
    match t
    case Leaf(b, None) => true
    case Leaf(b, Some(e)) => Apart(b, e.pos, p.pos, fuel)
    case Internal(b, nw, ne, sw, se) =>
      match Dir(b, p.pos)
      case NW => CanInsert(nw, p, fuel)
      case NE => CanInsert(ne, p, fuel)
      case SW => CanInsert(sw, p, fuel)
      case SE => CanInsert(se, p, fuel)
  }

  /** Insertion: an empty leaf takes the element; an occupied leaf splits into a fresh
      internal node that receives the old element and then the new one; an internal node
      inserts into the child that quadrant selection picks. */
  function Ins(t: Tree, p: Elem, fuel: nat): Tree
    requires CanInsert(t, p, fuel)
    decreases fuel, t
  {
    match t
    case Leaf(b, None) => Leaf(b, Some(p))
    case Leaf(b, Some(e)) =>
      Ins(Placed(b, e), p, fuel - 1)
    case Internal(b, nw, ne, sw, se) =>
      match Dir(b, p.pos)
      case NW => Internal(b, Ins(nw, p, fuel), ne, sw, se)
      case NE => Internal(b, nw, Ins(ne, p, fuel), sw, se)
      case SW => Internal(b, nw, ne, Ins(sw, p, fuel), se)
      case SE => Internal(b, nw, ne, sw, Ins(se, p, fuel))
  }

  /** Splitting re-inserts the old element into a fresh internal node, which puts it into the
      empty leaf of the quadrant selected for it. */
  lemma SplitPlaced(b: Rect, e: Elem, fuel: nat)
    ensures CanInsert(EmptyQuads(b), e, fuel) && Ins(EmptyQuads(b), e, fuel) == Placed(b, e)
  {
  }

  /** A folder: the three visits of the source's folder interface, each taking the folder's
      state before the call and returning its state after the call with the visit's result. */
  datatype Folder<!S, !R> = Folder(
    visitEmpty: (S, Path) -> (S, R),
    visitLeaf: (S, Path, Elem) -> (S, R),
    visitQuad: (S, Path, R, R, R, R) -> (S, R))

  /** The post-order fold: children in NW, NE, SW, SE order, each with the path extended by
      its direction, then the node's own visit with the node's path. */
  function Fold<S, R>(t: Tree, f: Folder<S, R>, s: S, path: Path): (S, R) {
    match t
    case Leaf(_, None) => f.visitEmpty(s, path)
    case Leaf(_, Some(e)) => f.visitLeaf(s, path, e)
    case Internal(_, nw, ne, sw, se) =>
      var (s1, rnw) := Fold(nw, f, s, path + [NW]);
      var (s2, rne) := Fold(ne, f, s1, path + [NE]);
      var (s3, rsw) := Fold(sw, f, s2, path + [SW]);
      var (s4, rse) := Fold(se, f, s3, path + [SE]);
      f.visitQuad(s4, path, rnw, rne, rsw, rse)
  }

  /** The path-to-region listing: every node, occupied or not, keyed by its path. */
  function Regions(t: Tree, path: Path): map<Path, Rect> {
    match t
    case Leaf(b, _) => map[path := b]
    case Internal(b, nw, ne, sw, se) =>
      map[path := b] + Regions(nw, path + [NW]) + Regions(ne, path + [NE])
                     + Regions(sw, path + [SW]) + Regions(se, path + [SE])
  }

  /** The truncated descent: an internal node whose region satisfies `pred` contributes its
      own path and is not descended into; a leaf contributes its path exactly when it is
      occupied, without consulting `pred`. */
  function Fitting(t: Tree, pred: Rect -> bool, path: Path): set<Path> {
    match t
    case Leaf(_, e) => if e.Some? then {path} else {}
    case Internal(b, nw, ne, sw, se) =>
      if pred(b) then {path}
      else (Fitting(nw, pred, path + [NW]) + Fitting(ne, pred, path + [NE])
            + Fitting(sw, pred, path + [SW]) + Fitting(se, pred, path + [SE]))
  }
}
