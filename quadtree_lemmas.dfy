/** Properties of insertion: it terminates for a position that differs from every stored
    one, it adds exactly the inserted element, it keeps the structural invariant, and its
    result does not depend on the split budget it was given. */
module QuadtreeLemmas {
  import opened Options
  import opened Geometry
  import opened QuadtreeSpec

  function Abs(x: real): real {
    if x < 0.0 then -x else x
  }

  /** `x` doubled `k` times. */
  function Doubled(k: nat, x: real): real {
    if k == 0 then x else 2.0 * Doubled(k - 1, x)
  }

  lemma ProductGrows(k: nat, d: real)
    requires k > 0 && d > 0.0
    ensures 2.0 * ((k as real) * d) >= (k as real + 1.0) * d
  {
  }

  lemma {:induction false} DoubledGrows(k: nat, d: real)
    requires d > 0.0
    ensures Doubled(k, d) >= (k as real + 1.0) * d
  {
    if k > 0 {
      DoubledGrows(k - 1, d);
      ProductGrows(k, d);
    }
  }

  /** Two points of `b` that `k` successive splits do not tell apart are closer, on each
      axis, than the width and the height of the regions `k` splits produce. */
  lemma {:induction false} NotApartClose(b: Rect, a: Vec2, c: Vec2, k: nat)
    requires b.Contains(a) && b.Contains(c) && !Apart(b, a, c, k)
    ensures Doubled(k, Abs(a.x - c.x)) < b.w && Doubled(k, Abs(a.y - c.y)) < b.h
    decreases k
  {
    if k > 0 {
      var d := Dir(b, a);
      QuadrantMembership(b, a, d);
      QuadrantMembership(b, c, d);
      QuadrantSize(b, d);
      NotApartClose(Quadrant(b, d), a, c, k - 1);
    }
  }

  lemma ScaledUp(q: real, r: real, d: real)
    requires q >= r && d > 0.0
    ensures q * d >= r * d
  {
  }

  /** A number of splits after which `d`, doubled that many times, reaches `w`. */
  lemma Outgrow(w: real, d: real) returns (k: nat)
    requires w > 0.0 && d > 0.0
    ensures Doubled(k, d) >= w
  {
    k := (w / d).Floor as nat;
    DoubledGrows(k, d);
    ScaledUp(k as real + 1.0, w / d, d);
  }

  /** Two different points of a region are told apart by some number of splits. */
  lemma Separation(b: Rect, a: Vec2, c: Vec2) returns (k: nat)
    requires b.Contains(a) && b.Contains(c) && a != c
    ensures Apart(b, a, c, k)
  {
    var dx, dy := Abs(a.x - c.x), Abs(a.y - c.y);
    if dx != 0.0 {
      k := Outgrow(b.w, dx);
    } else {
      k := Outgrow(b.h, dy);
    }
    if !Apart(b, a, c, k) {
      NotApartClose(b, a, c, k);
      assert false;
    }
  }

  /** Within one region, no number of successive splits tells a point apart from itself. */
  lemma {:induction false} CoincidentNeverApart(b: Rect, a: Vec2, k: nat)
    ensures !Apart(b, a, a, k)
    decreases k
  {
    if k > 0 {
      CoincidentNeverApart(Quadrant(b, Dir(b, a)), a, k - 1);
    }
  }

  /** Every element stored in a well-formed subtree lies within the subtree's region. */
  lemma {:induction false} ElementsInBounds(t: Tree)
    requires WellFormed(t)
    ensures forall e | e in Elements(t) :: t.bounds.Contains(e.pos)
  {
    match t
    case Leaf(_, None) =>
    case Leaf(_, Some(_)) =>
    case Internal(b, nw, ne, sw, se) =>
      ElementsInBounds(nw);
      ElementsInBounds(ne);
      ElementsInBounds(sw);
      ElementsInBounds(se);
      forall e | e in Elements(t)
        ensures b.Contains(e.pos)
      {
        if e in Elements(nw) { QuadrantMembership(b, e.pos, NW); }
        else if e in Elements(ne) { QuadrantMembership(b, e.pos, NE); }
        else if e in Elements(sw) { QuadrantMembership(b, e.pos, SW); }
        else { QuadrantMembership(b, e.pos, SE); }
      }
  }

  /** Inserting an element at the position of one already stored in a well-formed tree can
      never be carried out, whatever the split budget: the descent reaches the leaf holding
      the stored element, and no number of splits tells the two positions apart. */
  lemma {:induction false} CoincidentBlocks(t: Tree, p: Elem, e: Elem, fuel: nat)
    requires WellFormed(t) && e in Elements(t) && e.pos == p.pos
    ensures !CanInsert(t, p, fuel)
  {
    match t
    case Leaf(_, None) =>
    case Leaf(b, Some(x)) =>
      CoincidentNeverApart(b, p.pos, fuel);
    case Internal(b, nw, ne, sw, se) =>
      if e in Elements(nw) {
        ElementsInBounds(nw);
        QuadrantMembership(b, p.pos, NW);
        CoincidentBlocks(nw, p, e, fuel);
      } else if e in Elements(ne) {
        ElementsInBounds(ne);
        QuadrantMembership(b, p.pos, NE);
        CoincidentBlocks(ne, p, e, fuel);
      } else if e in Elements(sw) {
        ElementsInBounds(sw);
        QuadrantMembership(b, p.pos, SW);
        CoincidentBlocks(sw, p, e, fuel);
      } else {
        ElementsInBounds(se);
        QuadrantMembership(b, p.pos, SE);
        CoincidentBlocks(se, p, e, fuel);
      }
  }

  /** An element inside the root region whose position differs from every stored one can be
      inserted with some split budget. */
  lemma {:induction false} CanInsertFromDistinct(t: Tree, p: Elem)
    requires WellFormed(t) && t.bounds.Contains(p.pos)
    requires forall e | e in Elements(t) :: e.pos != p.pos
    ensures exists fuel: nat :: CanInsert(t, p, fuel)
  {
    match t
    case Leaf(b, None) =>
      assert CanInsert(t, p, 0);
    case Leaf(b, Some(e)) =>
      assert e in Elements(t);
      var k := Separation(b, e.pos, p.pos);
      assert CanInsert(t, p, k);
    case Internal(b, nw, ne, sw, se) =>
      var d := Dir(b, p.pos);
      QuadrantMembership(b, p.pos, d);
      var c := Child(t, d);
      assert forall e | e in Elements(c) :: e in Elements(t);
      CanInsertFromDistinct(c, p);
      var fuel: nat :| CanInsert(c, p, fuel);
      assert CanInsert(t, p, fuel);
  }

  lemma {:induction false} InsSame(t: Tree, p: Elem, f1: nat, f2: nat)
    requires CanInsert(t, p, f1) && CanInsert(t, p, f2)
    ensures Ins(t, p, f1) == Ins(t, p, f2)
    decreases f1, t
  {
    match t
    case Leaf(b, None) =>
    case Leaf(b, Some(e)) =>
      InsSame(Placed(b, e), p, f1 - 1, f2 - 1);
    case Internal(b, nw, ne, sw, se) =>
      match Dir(b, p.pos)
      case NW => InsSame(nw, p, f1, f2);
      case NE => InsSame(ne, p, f1, f2);
      case SW => InsSame(sw, p, f1, f2);
      case SE => InsSame(se, p, f1, f2);
  }

  /** The tree insertion produces does not depend on the split budget. */
  lemma InsFuelIndependent(t: Tree, p: Elem, fuel: nat)
    requires CanInsert(t, p, fuel)
    ensures forall f: nat | CanInsert(t, p, f) :: Ins(t, p, f) == Ins(t, p, fuel)
  {
    forall f: nat | CanInsert(t, p, f)
      ensures Ins(t, p, f) == Ins(t, p, fuel)
    {
      InsSame(t, p, f, fuel);
    }
  }

  lemma PlacedElements(b: Rect, e: Elem)
    ensures Elements(Placed(b, e)) == [e]
  {
  }

  /** A split keeps the old element inside the leaf that receives it. */
  lemma PlacedWellFormed(b: Rect, e: Elem)
    requires b.Contains(e.pos)
    ensures WellFormed(Placed(b, e)) && Placed(b, e).bounds == b
  {
    var d := Dir(b, e.pos);
    QuadrantMembership(b, e.pos, d);
    assert WellFormed(Leaf(Quadrant(b, NW), None)) && WellFormed(Leaf(Quadrant(b, NE), None));
    assert WellFormed(Leaf(Quadrant(b, SW), None)) && WellFormed(Leaf(Quadrant(b, SE), None));
    assert WellFormed(Leaf(Quadrant(b, d), Some(e)));
  }

  /** Insertion adds exactly the inserted element. */
  lemma {:induction false} InsElements(t: Tree, p: Elem, fuel: nat)
    requires CanInsert(t, p, fuel)
    ensures multiset(Elements(Ins(t, p, fuel))) == multiset(Elements(t)) + multiset{p}
    decreases fuel, t
  {
    match t
    case Leaf(b, None) =>
    case Leaf(b, Some(e)) =>
      PlacedElements(b, e);
      InsElements(Placed(b, e), p, fuel - 1);
    case Internal(b, nw, ne, sw, se) =>
      match Dir(b, p.pos)
      case NW => InsElements(nw, p, fuel);
      case NE => InsElements(ne, p, fuel);
      case SW => InsElements(sw, p, fuel);
      case SE => InsElements(se, p, fuel);
  }

  /** Insertion of an element inside the region keeps the structural invariant and the
      region of the node. */
  lemma {:induction false} InsWellFormed(t: Tree, p: Elem, fuel: nat)
    requires CanInsert(t, p, fuel) && WellFormed(t) && t.bounds.Contains(p.pos)
    ensures WellFormed(Ins(t, p, fuel)) && Ins(t, p, fuel).bounds == t.bounds
    decreases fuel, t
  {
    match t
    case Leaf(b, None) =>
    case Leaf(b, Some(e)) =>
      PlacedWellFormed(b, e);
      InsWellFormed(Placed(b, e), p, fuel - 1);
    case Internal(b, nw, ne, sw, se) =>
      var d := Dir(b, p.pos);
      QuadrantMembership(b, p.pos, d);
      match d
      case NW => InsWellFormed(nw, p, fuel);
      case NE => InsWellFormed(ne, p, fuel);
      case SW => InsWellFormed(sw, p, fuel);
      case SE => InsWellFormed(se, p, fuel);
  }

  /** What insertion promises for an element inside the root region whose position differs
      from every stored one: some split budget suffices, the element is added exactly once,
      the structural invariant and the root region are kept, and the result is the same for
      every sufficient budget. */
  lemma InsCorrect(t: Tree, p: Elem) returns (fuel: nat)
    requires WellFormed(t) && t.bounds.Contains(p.pos)
    requires forall e | e in Elements(t) :: e.pos != p.pos
    ensures CanInsert(t, p, fuel)
    ensures multiset(Elements(Ins(t, p, fuel))) == multiset(Elements(t)) + multiset{p}
    ensures WellFormed(Ins(t, p, fuel)) && Ins(t, p, fuel).bounds == t.bounds
    ensures forall f: nat | CanInsert(t, p, f) :: Ins(t, p, f) == Ins(t, p, fuel)
  {
    CanInsertFromDistinct(t, p);
    fuel :| CanInsert(t, p, fuel);
    InsElements(t, p, fuel);
    InsWellFormed(t, p, fuel);
    InsFuelIndependent(t, p, fuel);
  }

  /** What the whole-tree insert makes of `t`: unchanged when `p` lies outside the region,
      otherwise the insertion under a split budget that suffices (any one gives the same tree,
      by InsFuelIndependent). The result holds the old elements and `p` when it lies inside. */
  ghost function Inserted(t: Tree, p: Elem): (r: Tree)
    requires WellFormed(t)
    requires t.bounds.Contains(p.pos) ==> forall e | e in Elements(t) :: e.pos != p.pos
    ensures WellFormed(r) && r.bounds == t.bounds
    ensures multiset(Elements(r)) == multiset(Elements(t)) + (if t.bounds.Contains(p.pos) then multiset{p} else multiset{})
  {
    if !t.bounds.Contains(p.pos) then t
    else
      CanInsertFromDistinct(t, p);
      var fuel :| CanInsert(t, p, fuel);
      InsElements(t, p, fuel);
      InsWellFormed(t, p, fuel);
      Ins(t, p, fuel)
  }
}
