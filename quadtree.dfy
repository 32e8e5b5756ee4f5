/** The mutable quadtree: node objects whose leaves take an element in place and whose
    internal nodes replace a child in place, and the tree object whose root is replaced on
    insertion. Each object keeps a ghost `Contents` (the value in module QuadtreeSpec it
    stands for) and a ghost footprint `Repr`. */
module Quadtree {
  import opened Options
  import opened Geometry
  import opened QuadtreeSpec
  import opened QuadtreeLemmas

  lemma MapUnionAssoc<K, V>(m: map<K, V>, a: map<K, V>, b: map<K, V>)
    ensures (m + a) + b == m + (a + b)
  {
  }

  /** A quadtree node: a leaf (`isLeaf`, holding at most one element) or an internal node
      with four children. The kind and the region of a node are fixed at construction. */
  class Node {
    const bounds: Rect
    const isLeaf: bool
    var elem: Option<Elem>
    var nw: Node?
    var ne: Node?
    var sw: Node?
    var se: Node?

    ghost var Contents: Tree
    ghost var Repr: set<object>

    ghost predicate Valid()
      reads this, Repr
      ensures Valid() ==> this in Repr
      decreases Repr
    {
      this in Repr &&
      (isLeaf ==> Contents == Leaf(bounds, elem)) &&
      (!isLeaf ==>
        nw != null && ne != null && sw != null && se != null &&
        nw in Repr && nw.Repr <= Repr && this !in nw.Repr &&
        ne in Repr && ne.Repr <= Repr && this !in ne.Repr &&
        sw in Repr && sw.Repr <= Repr && this !in sw.Repr &&
        se in Repr && se.Repr <= Repr && this !in se.Repr &&
        nw.Repr !! ne.Repr && nw.Repr !! sw.Repr && nw.Repr !! se.Repr &&
        ne.Repr !! sw.Repr && ne.Repr !! se.Repr && sw.Repr !! se.Repr &&
        nw.Valid() && ne.Valid() && sw.Valid() && se.Valid() &&
        Contents == Internal(bounds, nw.Contents, ne.Contents, sw.Contents, se.Contents))
    }

    /** An empty leaf over `b`. */
    constructor InitLeaf(b: Rect)
      ensures Valid() && fresh(Repr)
      ensures isLeaf && bounds == b && Contents == Leaf(b, None)
    {
      bounds, isLeaf, elem := b, true, None;
      nw, ne, sw, se := null, null, null, null;
      Contents := Leaf(b, None);
      Repr := {this};
    }

    /** An internal node over `b` whose children are fresh empty leaves over its quadrants. */
    constructor InitInternal(b: Rect)
      ensures Valid() && fresh(Repr)
      ensures !isLeaf && bounds == b && Contents == EmptyQuads(b)
    {
      bounds, isLeaf, elem := b, false, None;
      var cnw := new Node.InitLeaf(b.West().North());
      var cne := new Node.InitLeaf(b.East().North());
      var csw := new Node.InitLeaf(b.West().South());
      var cse := new Node.InitLeaf(b.East().South());
      nw, ne, sw, se := cnw, cne, csw, cse;
      Contents := Internal(b, cnw.Contents, cne.Contents, csw.Contents, cse.Contents);
      Repr := {this} + cnw.Repr + cne.Repr + csw.Repr + cse.Repr;
    }

    /** Inserts `p` below this node and returns the node that replaces it: the node itself,
        except that an occupied leaf is replaced by a new internal node. */
    method Insert(p: Elem, ghost fuel: nat) returns (r: Node)
      requires Valid() && CanInsert(Contents, p, fuel)
      modifies Repr
      decreases fuel, Contents, 2
      ensures r.Valid() && fresh(r.Repr - old(Repr))
      ensures r.Contents == Ins(old(Contents), p, fuel)
      ensures r.bounds == bounds
      ensures !isLeaf || old(elem).None? ==> r == this
      ensures isLeaf && old(elem).Some? ==> !r.isLeaf && fresh(r.Repr)
    {
      if isLeaf {
        if elem.None? {
          elem := Some(p);
          Contents := Leaf(bounds, elem);
          r := this;
          return;
        }
        var newNode := Split(fuel);
        var same := newNode.Insert(p, fuel - 1);
        r := newNode;
      } else {
        r := InsertBelow(p, fuel);
      }
    }

    /** The internal-node case of Insert: inserts into the child that quadrant selection picks
        and replaces that child by the node its insertion returns. */
    method InsertBelow(p: Elem, ghost fuel: nat) returns (r: Node)
      requires Valid() && !isLeaf && CanInsert(Contents, p, fuel)
      modifies Repr
      decreases fuel, Contents, 1
      ensures r.Valid() && fresh(r.Repr - old(Repr))
      ensures r.Contents == Ins(old(Contents), p, fuel)
      ensures r == this
    {
      var direction := Dir(bounds, p.pos);
      match direction {
        case NW => ReplaceNW(p, fuel);
        case NE => ReplaceNE(p, fuel);
        case SW => ReplaceSW(p, fuel);
        case SE => ReplaceSE(p, fuel);
      }
      r := this;
    }

    /** Inserts `p` into the NW child and puts the node returned in its place. */
    method ReplaceNW(p: Elem, ghost fuel: nat)
      requires Valid() && !isLeaf && CanInsert(Contents.nw, p, fuel)
      modifies Repr
      decreases fuel, Contents, 0
      ensures Valid() && fresh(Repr - old(Repr))
      ensures Contents == Internal(old(Contents).bounds, Ins(old(Contents).nw, p, fuel), old(Contents).ne, old(Contents).sw, old(Contents).se)
    {
      var n := nw.Insert(p, fuel);
      label Inserted:
      nw, Repr, Contents := n, Repr + n.Repr, Internal(bounds, n.Contents, ne.Contents, sw.Contents, se.Contents);
      n.ValidFrame@Inserted(n);
      ValidFrame(ne);
      ValidFrame(sw);
      ValidFrame(se);
      ValidInternal();
    }

    /** Inserts `p` into the NE child and puts the node returned in its place. */
    method ReplaceNE(p: Elem, ghost fuel: nat)
      requires Valid() && !isLeaf && CanInsert(Contents.ne, p, fuel)
      modifies Repr
      decreases fuel, Contents, 0
      ensures Valid() && fresh(Repr - old(Repr))
      ensures Contents == Internal(old(Contents).bounds, old(Contents).nw, Ins(old(Contents).ne, p, fuel), old(Contents).sw, old(Contents).se)
    {
      var n := ne.Insert(p, fuel);
      label Inserted:
      ne, Repr, Contents := n, Repr + n.Repr, Internal(bounds, nw.Contents, n.Contents, sw.Contents, se.Contents);
      n.ValidFrame@Inserted(n);
      ValidFrame(nw);
      ValidFrame(sw);
      ValidFrame(se);
      ValidInternal();
    }

    /** Inserts `p` into the SW child and puts the node returned in its place. */
    method ReplaceSW(p: Elem, ghost fuel: nat)
      requires Valid() && !isLeaf && CanInsert(Contents.sw, p, fuel)
      modifies Repr
      decreases fuel, Contents, 0
      ensures Valid() && fresh(Repr - old(Repr))
      ensures Contents == Internal(old(Contents).bounds, old(Contents).nw, old(Contents).ne, Ins(old(Contents).sw, p, fuel), old(Contents).se)
    {
      var n := sw.Insert(p, fuel);
      label Inserted:
      sw, Repr, Contents := n, Repr + n.Repr, Internal(bounds, nw.Contents, ne.Contents, n.Contents, se.Contents);
      n.ValidFrame@Inserted(n);
      ValidFrame(nw);
      ValidFrame(ne);
      ValidFrame(se);
      ValidInternal();
    }

    /** Inserts `p` into the SE child and puts the node returned in its place. */
    method ReplaceSE(p: Elem, ghost fuel: nat)
      requires Valid() && !isLeaf && CanInsert(Contents.se, p, fuel)
      modifies Repr
      decreases fuel, Contents, 0
      ensures Valid() && fresh(Repr - old(Repr))
      ensures Contents == Internal(old(Contents).bounds, old(Contents).nw, old(Contents).ne, old(Contents).sw, Ins(old(Contents).se, p, fuel))
    {
      var n := se.Insert(p, fuel);
      label Inserted:
      se, Repr, Contents := n, Repr + n.Repr, Internal(bounds, nw.Contents, ne.Contents, sw.Contents, n.Contents);
      n.ValidFrame@Inserted(n);
      ValidFrame(nw);
      ValidFrame(ne);
      ValidFrame(sw);
      ValidInternal();
    }

    /** The internal-node case of Valid, for callers that establish it conjunct by conjunct. */
    lemma ValidInternal()
      requires this in Repr && !isLeaf
      requires nw != null && ne != null && sw != null && se != null
      requires nw in Repr && nw.Repr <= Repr && this !in nw.Repr
      requires ne in Repr && ne.Repr <= Repr && this !in ne.Repr
      requires sw in Repr && sw.Repr <= Repr && this !in sw.Repr
      requires se in Repr && se.Repr <= Repr && this !in se.Repr
      requires nw.Repr !! ne.Repr && nw.Repr !! sw.Repr && nw.Repr !! se.Repr
      requires ne.Repr !! sw.Repr && ne.Repr !! se.Repr && sw.Repr !! se.Repr
      requires nw.Valid() && ne.Valid() && sw.Valid() && se.Valid()
      requires Contents == Internal(bounds, nw.Contents, ne.Contents, sw.Contents, se.Contents)
      ensures Valid()
    {
    }

    /** Validity of a node depends on nothing outside its footprint. */
    twostate lemma ValidFrame(n: Node)
      requires old(n.Valid())
      requires unchanged(old(n.Repr))
      ensures n.Valid() && n.Repr == old(n.Repr) && n.Contents == old(n.Contents)
    {
    }

    /** Replaces an occupied leaf by a fresh internal node over the same region holding the
        leaf's element. */
    method Split(ghost fuel: nat) returns (r: Node)
      requires Valid() && isLeaf && elem.Some? && fuel >= 1
      decreases fuel, Contents, 0
      ensures r.Valid() && fresh(r.Repr)
      ensures !r.isLeaf && r.bounds == bounds && r.Contents == Placed(bounds, elem.value)
    {
      var newQuad := new Node.InitInternal(bounds);
      SplitPlaced(bounds, elem.value, fuel - 1);
      r := newQuad.Insert(elem.value, fuel - 1);
    }

    /** The post-order fold below this node, `path` being the path of this node; the state of
        the folder is threaded through the visits in the order they are made. */
    method ApplyFold<S, R>(f: Folder<S, R>, s: S, path: Path) returns (s': S, r: R)
      requires Valid()
      decreases Repr
      ensures (s', r) == Fold(Contents, f, s, path)
    {
      if isLeaf {
        if elem.None? {
          s', r := f.visitEmpty(s, path).0, f.visitEmpty(s, path).1;
        } else {
          s', r := f.visitLeaf(s, path, elem.value).0, f.visitLeaf(s, path, elem.value).1;
        }
        return;
      }
      var s1, rnw := nw.ApplyFold(f, s, path + [NW]);
      var s2, rne := ne.ApplyFold(f, s1, path + [NE]);
      var s3, rsw := sw.ApplyFold(f, s2, path + [SW]);
      var s4, rse := se.ApplyFold(f, s3, path + [SE]);
      var v := f.visitQuad(s4, path, rnw, rne, rsw, rse);
      s', r := v.0, v.1;
    }

    /** Puts the region of every node below this one into `collector`, keyed by its path. */
    method GetRegions(collector: map<Path, Rect>, path: Path) returns (out: map<Path, Rect>)
      requires Valid()
      decreases Repr
      ensures out == collector + Regions(Contents, path)
    {
      out := collector[path := bounds];
      if isLeaf {
        return;
      }
      ghost var own := map[path := bounds];
      assert out == collector + own;
      out := nw.GetRegions(out, path + [NW]);
      MapUnionAssoc(collector, own, Regions(nw.Contents, path + [NW]));
      own := own + Regions(nw.Contents, path + [NW]);
      out := ne.GetRegions(out, path + [NE]);
      MapUnionAssoc(collector, own, Regions(ne.Contents, path + [NE]));
      own := own + Regions(ne.Contents, path + [NE]);
      out := sw.GetRegions(out, path + [SW]);
      MapUnionAssoc(collector, own, Regions(sw.Contents, path + [SW]));
      own := own + Regions(sw.Contents, path + [SW]);
      out := se.GetRegions(out, path + [SE]);
      MapUnionAssoc(collector, own, Regions(se.Contents, path + [SE]));
    }

    /** Adds to `collector` the frontier of paths below this node for the opening test
        `pred`: the occupied leaves reached, and the internal nodes at which the descent stops. */
    method GetPathsFitting(pred: Rect -> bool, collector: set<Path>, path: Path) returns (out: set<Path>)
      requires Valid()
      decreases Repr
      ensures out == collector + Fitting(Contents, pred, path)
    {
      if isLeaf {
        out := if elem.None? then collector else collector + {path};
        return;
      }
      if pred(bounds) {
        out := collector + {path};
        return;
      }
      out := nw.GetPathsFitting(pred, collector, path + [NW]);
      out := ne.GetPathsFitting(pred, out, path + [NE]);
      out := sw.GetPathsFitting(pred, out, path + [SW]);
      out := se.GetPathsFitting(pred, out, path + [SE]);
    }
  }

  /** The quadtree: a fixed root region with origin (0, 0) and a root node that insertion
      replaces. */
  class Quadtree {
    const bounds: Rect
    var inner: Node

    ghost var Contents: Tree
    ghost var Repr: set<object>

    ghost predicate Valid()
      reads this, Repr
      ensures Valid() ==> this in Repr
    {
      this in Repr && inner in Repr && inner.Repr <= Repr && this !in inner.Repr &&
      inner.Valid() && Contents == inner.Contents &&
      Contents.bounds == bounds && WellFormed(Contents)
    }

    /** A tree over `width` by `height` whose root is an empty leaf. */
    constructor(width: real, height: real)
      ensures Valid() && fresh(Repr)
      ensures bounds == Rect(0.0, 0.0, width, height) && Contents == Leaf(bounds, None)
    {
      bounds := Rect(0.0, 0.0, width, height);
      var root := new Node.InitLeaf(Rect(0.0, 0.0, width, height));
      inner := root;
      Contents := root.Contents;
      Repr := {this} + root.Repr;
    }

    /** Inserts `p` when its position lies in the root region and reports whether it did.
        The position must differ from those already stored: for two equal positions the
        splitting never ends (see QuadtreeLemmas.CoincidentBlocks). */
    method Insert(p: Elem) returns (ok: bool)
      requires Valid()
      requires bounds.Contains(p.pos) ==> forall e | e in Elements(Contents) :: e.pos != p.pos
      modifies Repr
      ensures Valid() && fresh(Repr - old(Repr))
      ensures ok <==> bounds.Contains(p.pos)
      ensures !ok ==> Contents == old(Contents)
      ensures ok ==> multiset(Elements(Contents)) == multiset(Elements(old(Contents))) + multiset{p}
      ensures ok ==> forall fuel: nat | CanInsert(old(Contents), p, fuel) :: Contents == Ins(old(Contents), p, fuel)
      ensures Contents == Inserted(old(Contents), p)
    {
      if !bounds.Contains(p.pos) {
        return false;
      }
      ghost var fuel := InsCorrect(Contents, p);
      var root := inner.Insert(p, fuel);
      label Inserted:
      inner := root;
      Contents := root.Contents;
      Repr := Repr + root.Repr;
      root.ValidFrame@Inserted(root);
      ok := true;
    }

    /** The post-order fold of the whole tree, starting at the root with the empty path. */
    method ApplyFold<S, R>(f: Folder<S, R>, s: S) returns (s': S, r: R)
      requires Valid()
      ensures (s', r) == Fold(Contents, f, s, [])
    {
      s', r := inner.ApplyFold(f, s, []);
    }

    /** The region of every node, keyed by its path from the root. */
    method GetRegions() returns (regions: map<Path, Rect>)
      requires Valid()
      ensures regions == Regions(Contents, [])
    {
      regions := inner.GetRegions(map[], []);
    }

    /** The frontier of paths for the opening test `pred`. */
    method GetPathsFitting(pred: Rect -> bool) returns (paths: set<Path>)
      requires Valid()
      ensures paths == Fitting(Contents, pred, [])
    {
      paths := inner.GetPathsFitting(pred, {}, []);
    }
  }
}
