/** The centre-of-mass aggregation of one Barnes-Hut step: merging mass points, the folder
    that fills the path-to-centre-of-mass table, the lookup that turns the frontier of paths
    chosen for one particle into the mass points it feels, and the step that drives them. */
module MassSimulation {
  import opened Options
  import opened Geometry
  import opened QuadtreeSpec
  import opened QuadtreeLemmas
  import opened QuadtreePaths
  import opened Quadtree

  /** A point mass: a particle, or the centre of mass of a set of particles. `linked` holds
      the id of the particle when the point stands for exactly one. */
  datatype MassPoint = MassPoint(pos: Vec2, mass: real, linked: Option<nat>)

  function Moment(p: MassPoint): Vec2 {
    p.pos.Scale(p.mass)
  }

  lemma ScaleBack(m: real, c: real)
    requires c != 0.0
    ensures (m * (1.0 / c)) * c == m
  {
  }

  /** Two points merged into one: the masses add up, and the position is the mass-weighted
      centroid, or the midpoint when the masses add up to zero. */
  function Merge(a: MassPoint, b: MassPoint): (r: MassPoint)
    ensures r.mass == a.mass + b.mass && r.linked == None
    ensures a.mass + b.mass == 0.0 ==> r.pos.Add(r.pos) == a.pos.Add(b.pos)
  {
    var combined := a.mass + b.mass;
    if combined == 0.0 then
      MassPoint(a.pos.Add(b.pos).Scale(0.5), 0.0, None)
    else
      MassPoint(Moment(a).Add(Moment(b)).Scale(1.0 / combined), combined, None)
  }

  /** When the masses do not add up to zero, the merged position is the mass-weighted
      centroid: its moment is the sum of the two moments. */
  lemma MergeCentroid(a: MassPoint, b: MassPoint)
    requires a.mass + b.mass != 0.0
    ensures Moment(Merge(a, b)) == Moment(a).Add(Moment(b))
  {
    var m := Moment(a).Add(Moment(b));
    ScaleBack(m.x, a.mass + b.mass);
    ScaleBack(m.y, a.mass + b.mass);
  }

  lemma MergeCommutes(a: MassPoint, b: MassPoint)
    ensures Merge(a, b) == Merge(b, a)
  {
  }

  /** For masses that are not negative, merging keeps the total moment. */
  lemma MergeMoment(a: MassPoint, b: MassPoint)
    requires a.mass >= 0.0 && b.mass >= 0.0
    ensures Moment(Merge(a, b)) == Moment(a).Add(Moment(b))
  {
    if a.mass + b.mass == 0.0 {
      MergeWeightless(a, b);
    } else {
      MergeCentroid(a, b);
    }
  }

  lemma MergeWeightless(a: MassPoint, b: MassPoint)
    requires a.mass == 0.0 && b.mass == 0.0
    ensures Moment(Merge(a, b)) == Moment(a).Add(Moment(b))
  {
    WeightlessMoment(a);
    WeightlessMoment(b);
    WeightlessMoment(Merge(a, b));
  }

  lemma WeightlessMoment(p: MassPoint)
    requires p.mass == 0.0
    ensures Moment(p) == Origin
  {
  }

  /** An empty region weighs nothing. */
  const EmptyPoint := MassPoint(Origin, 0.0, None)

  /** The point of a stored particle. */
  function LeafPoint(e: Elem): MassPoint {
    MassPoint(e.pos, e.mass, Some(e.id))
  }

  /** The table the folder fills, keyed by path. */
  type Table = map<Path, MassPoint>

  /** The folder of the centre-of-mass pass: an empty leaf writes nothing, an occupied leaf
      and an internal node record the point they return under their own path. */
  function Weights(): (f: Folder<Table, MassPoint>)
    ensures forall s: Table, path: Path :: f.visitEmpty(s, path).0 == s && f.visitEmpty(s, path).1.mass == 0.0
    ensures forall s: Table, path: Path, e: Elem ::
              f.visitLeaf(s, path, e).0 == s[path := f.visitLeaf(s, path, e).1] &&
              f.visitLeaf(s, path, e).1.mass == e.mass && f.visitLeaf(s, path, e).1.linked == Some(e.id)
    ensures forall s: Table, path: Path, nw: MassPoint, ne: MassPoint, sw: MassPoint, se: MassPoint ::
              f.visitQuad(s, path, nw, ne, sw, se).0 == s[path := f.visitQuad(s, path, nw, ne, sw, se).1] &&
              f.visitQuad(s, path, nw, ne, sw, se).1.mass == nw.mass + ne.mass + sw.mass + se.mass &&
              f.visitQuad(s, path, nw, ne, sw, se).1.linked == None
  {
    Folder(
      (s: Table, path: Path) => (s, EmptyPoint),
      (s: Table, path: Path, e: Elem) => (s[path := LeafPoint(e)], LeafPoint(e)),
      (s: Table, path: Path, nw: MassPoint, ne: MassPoint, sw: MassPoint, se: MassPoint) =>
        (s[path := Merge(Merge(Merge(nw, ne), sw), se)], Merge(Merge(Merge(nw, ne), sw), se)))
  }

  /** The centre of mass of a subtree, as the folder computes it bottom-up. */
  function CentreOfMass(t: Tree): MassPoint {
    match t
    case Leaf(_, None) => EmptyPoint
    case Leaf(_, Some(e)) => LeafPoint(e)
    case Internal(_, nw, ne, sw, se) =>
      Merge(Merge(Merge(CentreOfMass(nw), CentreOfMass(ne)), CentreOfMass(sw)), CentreOfMass(se))
  }

  /** The entries the folder writes for the subtree at `pre`, in the order it writes them. */
  function TableOf(t: Tree, pre: Path): Table {
    match t
    case Leaf(_, None) => map[]
    case Leaf(_, Some(e)) => map[pre := LeafPoint(e)]
    case Internal(_, nw, ne, sw, se) =>
      TableOf(nw, pre + [NW]) + TableOf(ne, pre + [NE]) + TableOf(sw, pre + [SW])
      + TableOf(se, pre + [SE]) + map[pre := CentreOfMass(t)]
  }

  lemma FoldWeightsLeaf(t: Tree, s: Table, pre: Path)
    requires t.Leaf?
    ensures Fold(t, Weights(), s, pre) == (s + TableOf(t, pre), CentreOfMass(t))
  {
    match t.elem
    case None =>
      assert s + map[] == s;
    case Some(e) =>
      assert s[pre := LeafPoint(e)] == s + map[pre := LeafPoint(e)];
  }

  lemma FoldWeightsQuad(t: Tree, s: Table, pre: Path)
    requires t.Internal?
    ensures
      var f := Weights();
      var s1 := Fold(t.nw, f, s, pre + [NW]).0;
      var s2 := Fold(t.ne, f, s1, pre + [NE]).0;
      var s3 := Fold(t.sw, f, s2, pre + [SW]).0;
      var s4 := Fold(t.se, f, s3, pre + [SE]).0;
      var m := Merge(Merge(Merge(Fold(t.nw, f, s, pre + [NW]).1, Fold(t.ne, f, s1, pre + [NE]).1),
                           Fold(t.sw, f, s2, pre + [SW]).1), Fold(t.se, f, s3, pre + [SE]).1);
      Fold(t, f, s, pre) == (s4[pre := m], m)
  {
  }

  /** The fold with the weights folder, started from table `s` at the subtree at `pre`, adds
      the entries TableOf lists and returns the subtree's centre of mass. */
  lemma {:induction false} WeightsFold(t: Tree, s: Table, pre: Path)
    ensures Fold(t, Weights(), s, pre) == (s + TableOf(t, pre), CentreOfMass(t))
  {
    match t
    case Leaf(_, _) =>
      FoldWeightsLeaf(t, s, pre);
    case Internal(_, nw, ne, sw, se) =>
      var f := Weights();
      var (s1, a) := Fold(nw, f, s, pre + [NW]);
      var (s2, b) := Fold(ne, f, s1, pre + [NE]);
      var (s3, c) := Fold(sw, f, s2, pre + [SW]);
      var (s4, d) := Fold(se, f, s3, pre + [SE]);
      FoldWeightsQuad(t, s, pre);
      WeightsFold(nw, s, pre + [NW]);
      WeightsFold(ne, s1, pre + [NE]);
      WeightsFold(sw, s2, pre + [SW]);
      WeightsFold(se, s3, pre + [SE]);
      QuadAssemble(t, s, pre, s1, s2, s3, s4, a, b, c, d);
  }

  /** The entries an internal node's fold writes, child by child and then its own, make up
      TableOf, and the merged point is the node's centre of mass. */
  lemma QuadAssemble(t: Tree, s: Table, pre: Path, s1: Table, s2: Table, s3: Table, s4: Table,
                     a: MassPoint, b: MassPoint, c: MassPoint, d: MassPoint)
    requires t.Internal?
    requires s1 == s + TableOf(t.nw, pre + [NW]) && s2 == s1 + TableOf(t.ne, pre + [NE])
    requires s3 == s2 + TableOf(t.sw, pre + [SW]) && s4 == s3 + TableOf(t.se, pre + [SE])
    requires a == CentreOfMass(t.nw) && b == CentreOfMass(t.ne)
    requires c == CentreOfMass(t.sw) && d == CentreOfMass(t.se)
    ensures Merge(Merge(Merge(a, b), c), d) == CentreOfMass(t)
    ensures s4[pre := Merge(Merge(Merge(a, b), c), d)] == s + TableOf(t, pre)
  {
    QuadTable(t, s, pre, s1, s2, s3, s4, Merge(Merge(Merge(a, b), c), d));
  }

  lemma UpdateIsUnion<K, V>(m: map<K, V>, k: K, v: V)
    ensures m[k := v] == m + map[k := v]
  {
  }

  lemma QuadTable(t: Tree, s: Table, pre: Path, s1: Table, s2: Table, s3: Table, s4: Table, m: MassPoint)
    requires t.Internal?
    requires s1 == s + TableOf(t.nw, pre + [NW]) && s2 == s1 + TableOf(t.ne, pre + [NE])
    requires s3 == s2 + TableOf(t.sw, pre + [SW]) && s4 == s3 + TableOf(t.se, pre + [SE])
    requires m == CentreOfMass(t)
    ensures s4[pre := m] == s + TableOf(t, pre)
  {
    var ta, tb, tc, td := TableOf(t.nw, pre + [NW]), TableOf(t.ne, pre + [NE]),
                          TableOf(t.sw, pre + [SW]), TableOf(t.se, pre + [SE]);
    var own := map[pre := m];
    UpdateIsUnion(s4, pre, m);
    MapUnionAssoc(s, ta, tb);
    MapUnionAssoc(s, ta + tb, tc);
    MapUnionAssoc(s, ta + tb + tc, td);
    MapUnionAssoc(s, ta + tb + tc + td, own);
  }

  /** A node has an entry when it carries mass information: it is internal or an occupied
      leaf. */
  predicate Weighed(n: Tree) {
    n.Internal? || n.elem.Some?
  }

  /** The keys of the table for the subtree at `pre` are the paths of its internal nodes and
      occupied leaves, and each holds the centre of mass of its node. */
  lemma {:induction false} TableAt(t: Tree, pre: Path, q: Path)
    ensures q in TableOf(t, pre) <==>
              pre <= q && NodeAt(t, q[|pre|..]).Some? && Weighed(NodeAt(t, q[|pre|..]).value)
    ensures q in TableOf(t, pre) ==> TableOf(t, pre)[q] == CentreOfMass(NodeAt(t, q[|pre|..]).value)
  {
    match t
    case Leaf(b, e) =>
      if pre <= q && q != pre {
        assert q[|pre|..] != [];
      }
      if q == pre {
        assert q[|pre|..] == [];
      }
    case Internal(b, nw, ne, sw, se) =>
      if q == pre {
        assert q[|pre|..] == [];
      } else {
        TableAt(nw, pre + [NW], q);
        TableAt(ne, pre + [NE], q);
        TableAt(sw, pre + [SW], q);
        TableAt(se, pre + [SE], q);
        if pre <= q {
          assert |q| > |pre|;
          var d := q[|pre|];
          PrefixStep(pre, d, q);
          assert |pre + [d]| == |pre| + 1;
          assert NodeAt(t, q[|pre|..]) == NodeAt(Child(t, d), q[|pre| + 1..]);
        }
      }
  }

  /** The table of a whole tree. */
  lemma TableOfTree(t: Tree, q: Path)
    ensures q in TableOf(t, []) <==> NodeAt(t, q).Some? && Weighed(NodeAt(t, q).value)
    ensures q in TableOf(t, []) ==> TableOf(t, [])[q] == CentreOfMass(NodeAt(t, q).value)
  {
    TableAt(t, [], q);
    assert q[0..] == q;
  }

  /** Only a particle's own leaf holds a point linked to it. */
  lemma CentreOfMassLinked(n: Tree, id: nat)
    ensures CentreOfMass(n).linked == Some(id) <==> n.Leaf? && n.elem.Some? && n.elem.value.id == id
  {
  }

  /** Every path of the frontier has an entry in the table of the same tree, so the lookup
      of the frontier drops nothing. */
  lemma FittingInTable(t: Tree, pred: Rect -> bool, q: Path)
    requires q in Fitting(t, pred, [])
    ensures q in TableOf(t, [])
  {
    FittingAt(t, pred, [], q);
    assert q[0..] == q;
    TableOfTree(t, q);
  }

  function TotalMass(s: seq<Elem>): real {
    if |s| == 0 then 0.0 else TotalMass(s[..|s| - 1]) + s[|s| - 1].mass
  }

  function TotalMoment(s: seq<Elem>): Vec2 {
    if |s| == 0 then Origin else TotalMoment(s[..|s| - 1]).Add(s[|s| - 1].pos.Scale(s[|s| - 1].mass))
  }

  predicate NonNegative(s: seq<Elem>) {
    forall i | 0 <= i < |s| :: s[i].mass >= 0.0
  }

  lemma {:induction false} TotalsConcat(a: seq<Elem>, b: seq<Elem>)
    ensures TotalMass(a + b) == TotalMass(a) + TotalMass(b)
    ensures TotalMoment(a + b) == TotalMoment(a).Add(TotalMoment(b))
    decreases |b|
  {
    if |b| == 0 {
      assert a + b == a;
    } else {
      assert (a + b)[..|a + b| - 1] == a + b[..|b| - 1];
      TotalsConcat(a, b[..|b| - 1]);
    }
  }

  lemma TotalsOfFour(a: seq<Elem>, b: seq<Elem>, c: seq<Elem>, d: seq<Elem>)
    ensures TotalMass(a + b + c + d) == TotalMass(a) + TotalMass(b) + TotalMass(c) + TotalMass(d)
    ensures TotalMoment(a + b + c + d) ==
              TotalMoment(a).Add(TotalMoment(b)).Add(TotalMoment(c)).Add(TotalMoment(d))
  {
    TotalsConcat(a, b);
    TotalsConcat(a + b, c);
    TotalsConcat(a + b + c, d);
  }

  /** The mass half of `TotalsOfFour` alone: proofs about masses call this one so that the
      moment equation, whose vector arithmetic is costly for the solver, stays out of them. */
  lemma MassesOfFour(a: seq<Elem>, b: seq<Elem>, c: seq<Elem>, d: seq<Elem>)
    ensures TotalMass(a + b + c + d) == TotalMass(a) + TotalMass(b) + TotalMass(c) + TotalMass(d)
  {
    TotalsOfFour(a, b, c, d);
  }

  lemma MergedMass(a: MassPoint, b: MassPoint, c: MassPoint, d: MassPoint)
    ensures Merge(Merge(Merge(a, b), c), d).mass == a.mass + b.mass + c.mass + d.mass
  {
  }

  /** The mass at the root of a subtree is the sum of the masses of the elements stored in
      it. */
  lemma {:induction false} RootMass(t: Tree)
    ensures CentreOfMass(t).mass == TotalMass(Elements(t))
  {
    match t
    case Leaf(_, None) =>
    case Leaf(_, Some(e)) =>
      assert [e][..0] == [];
    case Internal(_, nw, ne, sw, se) =>
      RootMass(nw);
      RootMass(ne);
      RootMass(sw);
      RootMass(se);
      RootMassQuad(t);
  }

  lemma RootMassQuad(t: Tree)
    requires t.Internal?
    requires CentreOfMass(t.nw).mass == TotalMass(Elements(t.nw))
    requires CentreOfMass(t.ne).mass == TotalMass(Elements(t.ne))
    requires CentreOfMass(t.sw).mass == TotalMass(Elements(t.sw))
    requires CentreOfMass(t.se).mass == TotalMass(Elements(t.se))
    ensures CentreOfMass(t).mass == TotalMass(Elements(t))
  {
    MassesOfFour(Elements(t.nw), Elements(t.ne), Elements(t.sw), Elements(t.se));
    QuadMass(t);
  }

  /** The mass at an internal node is the sum of its children's masses; kept apart so that
      proofs about totals never see the positions the merge computes. */
  lemma QuadMass(t: Tree)
    requires t.Internal?
    ensures CentreOfMass(t).mass
      == CentreOfMass(t.nw).mass + CentreOfMass(t.ne).mass + CentreOfMass(t.sw).mass + CentreOfMass(t.se).mass
  {
    var a, b, c, d := CentreOfMass(t.nw), CentreOfMass(t.ne), CentreOfMass(t.sw), CentreOfMass(t.se);
    assert CentreOfMass(t) == Merge(Merge(Merge(a, b), c), d);
    MergedMass(a, b, c, d);
  }

  lemma {:induction false} MassNonNegative(t: Tree)
    requires NonNegative(Elements(t))
    ensures CentreOfMass(t).mass >= 0.0
  {
    RootMass(t);
    NonNegativeTotal(Elements(t));
  }

  lemma {:induction false} NonNegativeTotal(s: seq<Elem>)
    requires NonNegative(s)
    ensures TotalMass(s) >= 0.0
    decreases |s|
  {
    if |s| > 0 {
      NonNegativeTotal(s[..|s| - 1]);
    }
  }

  lemma NonNegativeParts(a: seq<Elem>, b: seq<Elem>, c: seq<Elem>, d: seq<Elem>)
    requires NonNegative(a + b + c + d)
    ensures NonNegative(a) && NonNegative(b) && NonNegative(c) && NonNegative(d)
  {
    assert forall i | 0 <= i < |a| :: a[i] == (a + b + c + d)[i];
    assert forall i | 0 <= i < |b| :: b[i] == (a + b + c + d)[|a| + i];
    assert forall i | 0 <= i < |c| :: c[i] == (a + b + c + d)[|a| + |b| + i];
    assert forall i | 0 <= i < |d| :: d[i] == (a + b + c + d)[|a| + |b| + |c| + i];
  }

  /** For masses that are not negative, the centre of mass at the root of a subtree is the
      mass-weighted centroid of its elements: its moment is their total moment. */
  lemma {:induction false} RootMoment(t: Tree)
    requires NonNegative(Elements(t))
    ensures Moment(CentreOfMass(t)) == TotalMoment(Elements(t))
  {
    match t
    case Leaf(_, None) =>
    case Leaf(_, Some(e)) =>
      assert [e][..0] == [];
    case Internal(_, nw, ne, sw, se) =>
      NonNegativeParts(Elements(nw), Elements(ne), Elements(sw), Elements(se));
      RootMoment(nw);
      RootMoment(ne);
      RootMoment(sw);
      RootMoment(se);
      MassNonNegative(nw);
      MassNonNegative(ne);
      MassNonNegative(sw);
      MassNonNegative(se);
      var a, b, c, d := CentreOfMass(nw), CentreOfMass(ne), CentreOfMass(sw), CentreOfMass(se);
      MergeMoment(a, b);
      MergeMoment(Merge(a, b), c);
      MergeMoment(Merge(Merge(a, b), c), d);
      TotalsOfFour(Elements(nw), Elements(ne), Elements(sw), Elements(se));
  }

  /** The folder object of the centre-of-mass pass, holding the table its visits fill. */
  class CalculateWeights {
    var centresOfMass: Table

    constructor()
      ensures centresOfMass == map[]
    {
      centresOfMass := map[];
    }

    /** Folds `tree` with this folder and returns the filled table: an entry for every
        internal node and occupied leaf, holding the centre of mass of its subtree. */
    method Calculate(tree: Quadtree) returns (table: Table)
      requires tree.Valid()
      modifies this
      ensures centresOfMass == old(centresOfMass) + TableOf(tree.Contents, [])
      ensures table == centresOfMass
    {
      var s, r := tree.ApplyFold(Weights(), centresOfMass);
      WeightsFold(tree.Contents, centresOfMass, []);
      centresOfMass := s;
      table := centresOfMass;
    }
  }

  /** The lookup of a sequence of paths in the table, missing entries dropped. */
  function Present(table: Table, order: seq<Path>): seq<MassPoint> {
    if |order| == 0 then []
    else
      var last := order[|order| - 1];
      Present(table, order[..|order| - 1]) + (if last in table then [table[last]] else [])
  }

  /** The lookup keeps exactly the points of the paths that have an entry. */
  lemma {:induction false} PresentMembers(table: Table, order: seq<Path>, x: MassPoint)
    ensures x in Present(table, order) <==> exists q | q in order && q in table :: table[q] == x
    decreases |order|
  {
    if |order| > 0 {
      var init, last := order[..|order| - 1], order[|order| - 1];
      PresentMembers(table, init, x);
      assert order == init + [last];
      if x in Present(table, order) && !(x in Present(table, init)) {
        assert last in table && table[last] == x;
      }
      if exists q | q in order && q in table :: table[q] == x {
        var q :| q in order && q in table && table[q] == x;
        if q != last {
          assert q in init;
        }
      }
    }
  }

  /** When every path has an entry, the lookup drops nothing. */
  lemma {:induction false} PresentAll(table: Table, order: seq<Path>)
    requires forall q | q in order :: q in table
    ensures |Present(table, order)| == |order|
    ensures forall i | 0 <= i < |order| :: Present(table, order)[i] == table[order[i]]
    decreases |order|
  {
    if |order| > 0 {
      var init := order[..|order| - 1];
      assert forall q | q in init :: q in order;
      PresentAll(table, init);
    }
  }

  /** The points not linked to the particle `self`, in their order. */
  function WithoutLinked(ps: seq<MassPoint>, self: nat): seq<MassPoint> {
    if |ps| == 0 then []
    else
      var last := ps[|ps| - 1];
      WithoutLinked(ps[..|ps| - 1], self) + (if last.linked == Some(self) then [] else [last])
  }

  /** The filter keeps exactly the points not linked to the particle. */
  lemma {:induction false} WithoutLinkedMembers(ps: seq<MassPoint>, self: nat, x: MassPoint)
    ensures x in WithoutLinked(ps, self) <==> x in ps && x.linked != Some(self)
    decreases |ps|
  {
    if |ps| > 0 {
      var init := ps[..|ps| - 1];
      WithoutLinkedMembers(init, self, x);
      assert ps == init + [ps[|ps| - 1]];
    }
  }

  /** `order` lists every path of `paths` exactly once. */
  ghost predicate Enumerates(order: seq<Path>, paths: set<Path>) {
    (forall i, j | 0 <= i < j < |order| :: order[i] != order[j]) &&
    (forall q :: q in order <==> q in paths)
  }

  /** Looks the paths up in the table, in some order of the set, dropping the paths without
      an entry. */
  method LookUp(table: Table, paths: set<Path>) returns (points: seq<MassPoint>, ghost order: seq<Path>)
    ensures Enumerates(order, paths)
    ensures points == Present(table, order)
    ensures forall x :: x in points <==> exists q | q in paths && q in table :: table[q] == x
  {
    points, order := [], [];
    var rest := paths;
    while rest != {}
      invariant rest <= paths
      invariant forall q :: q in order <==> q in paths && q !in rest
      invariant forall i, j | 0 <= i < j < |order| :: order[i] != order[j]
      invariant points == Present(table, order)
      decreases rest
    {
      var q :| q in rest;
      if q in table {
        points := points + [table[q]];
      }
      assert (order + [q])[..|order|] == order;
      order := order + [q];
      rest := rest - {q};
    }
    forall x
      ensures x in points <==> exists q | q in paths && q in table :: table[q] == x
    {
      PresentMembers(table, order, x);
    }
  }

  /** Drops the points linked to the particle `self`. */
  method ExcludeSelf(points: seq<MassPoint>, self: nat) returns (kept: seq<MassPoint>)
    ensures kept == WithoutLinked(points, self)
  {
    kept := [];
    var i := 0;
    while i < |points|
      invariant 0 <= i <= |points|
      invariant kept == WithoutLinked(points[..i], self)
    {
      assert points[..i + 1][..i] == points[..i];
      if points[i].linked != Some(self) {
        kept := kept + [points[i]];
      }
      i := i + 1;
    }
    assert points[..|points|] == points;
  }

  /** The elements of `elems` inside `b`, in their order. */
  function InBounds(elems: seq<Elem>, b: Rect): seq<Elem> {
    if |elems| == 0 then []
    else
      var last := elems[|elems| - 1];
      InBounds(elems[..|elems| - 1], b) + (if b.Contains(last.pos) then [last] else [])
  }

  lemma {:induction false} InBoundsMembers(elems: seq<Elem>, b: Rect, e: Elem)
    ensures e in InBounds(elems, b) <==> e in elems && b.Contains(e.pos)
    decreases |elems|
  {
    if |elems| > 0 {
      InBoundsMembers(elems[..|elems| - 1], b, e);
      assert elems == elems[..|elems| - 1] + [elems[|elems| - 1]];
    }
  }

  /** Two particles inside the region never share a position. */
  predicate DistinctPositions(elems: seq<Elem>, b: Rect) {
    forall i, j | 0 <= i < j < |elems| && b.Contains(elems[i].pos) :: elems[i].pos != elems[j].pos
  }

  lemma InBoundsStep(elems: seq<Elem>, n: nat, b: Rect)
    requires n < |elems|
    ensures multiset(InBounds(elems[..n + 1], b)) ==
              multiset(InBounds(elems[..n], b)) + (if b.Contains(elems[n].pos) then multiset{elems[n]} else multiset{})
  {
    assert elems[..n + 1][..n] == elems[..n];
  }

  /** The particle at `n` lies apart from every particle before it that lies in the region. */
  lemma StoredApart(elems: seq<Elem>, n: nat, b: Rect, stored: seq<Elem>)
    requires DistinctPositions(elems, b) && n < |elems|
    requires multiset(stored) == multiset(InBounds(elems[..n], b))
    ensures b.Contains(elems[n].pos) ==> forall e | e in stored :: e.pos != elems[n].pos
  {
    forall e | e in stored && b.Contains(elems[n].pos)
      ensures e.pos != elems[n].pos
    {
      assert e in multiset(InBounds(elems[..n], b));
      InBoundsMembers(elems[..n], b, e);
      var k :| 0 <= k < n && elems[..n][k] == e;
      assert elems[k] == e;
    }
  }

  lemma DistinctPrefix(elems: seq<Elem>, b: Rect, n: nat)
    requires DistinctPositions(elems, b) && n <= |elems|
    ensures DistinctPositions(elems[..n], b)
  {
    assert forall i | 0 <= i < n :: elems[..n][i] == elems[i];
  }

  /** The tree the step builds: the particles inserted one by one, in their order, into an
      empty tree over `b`, those outside `b` turned away. */
  ghost function Built(elems: seq<Elem>, b: Rect): (t: Tree)
    requires DistinctPositions(elems, b)
    ensures WellFormed(t) && t.bounds == b
    ensures multiset(Elements(t)) == multiset(InBounds(elems, b))
    decreases |elems|
  {
    if |elems| == 0 then Leaf(b, None)
    else
      var n := |elems| - 1;
      DistinctPrefix(elems, b, n);
      var t := Built(elems[..n], b);
      StoredApart(elems, n, b, Elements(t));
      InBoundsStep(elems, n, b);
      assert elems[..n + 1] == elems;
      Inserted(t, elems[n])
  }

  /** A single particle inside the region is stored in the root leaf itself; one outside
      leaves the root an empty leaf. */
  lemma BuiltSingle(e: Elem, b: Rect)
    ensures Built([e], b) == Leaf(b, if b.Contains(e.pos) then Some(e) else None)
  {
    assert [e][..0] == [];
  }

  /** An enumeration of a one-element set is that element alone. */
  lemma EnumeratesSingleton(order: seq<Path>, x: Path)
    requires Enumerates(order, {x})
    ensures order == [x]
  {
    assert x in order;
    var i :| 0 <= i < |order| && order[i] == x;
    assert order[0] in order && order[|order| - 1] in order;
    assert 0 == i && |order| - 1 == i;
  }

  /** With a single particle, whatever its opening test, the frontier is the root leaf, whose
      point is the particle's own and is dropped: the particle feels nothing, and the region
      listing is the root alone. */
  lemma {:induction false} SingleParticleAlone(e: Elem, b: Rect, opening: Elem -> (Rect -> bool),
                                              order: seq<Path>, points: seq<MassPoint>)
    requires b.Contains(e.pos)
    requires Gathered(Built([e], b), TableOf(Built([e], b), []), opening, e, order, points)
    ensures points == []
    ensures Regions(Built([e], b), []) == map[[] := b]
  {
    BuiltSingle(e, b);
    LeafAlone(e, b, opening(e), order, points);
  }

  lemma LeafAlone(e: Elem, b: Rect, pred: Rect -> bool, order: seq<Path>, points: seq<MassPoint>)
    requires Enumerates(order, Fitting(Leaf(b, Some(e)), pred, []))
    requires points == WithoutLinked(Present(TableOf(Leaf(b, Some(e)), []), order), e.id)
    ensures points == []
  {
    var empty: Path := [];
    assert Fitting(Leaf(b, Some(e)), pred, []) == {empty};
    EnumeratesSingleton(order, empty);
    assert order[..0] == [];
    assert Present(TableOf(Leaf(b, Some(e)), []), order) == [LeafPoint(e)];
    assert [LeafPoint(e)][..0] == [];
  }

  /** One turn of the step's insertion loop: inserts the particle at `n`, whose result the
      step drops, so that the tree holds the particles of the region among the first n + 1. */
  method InsertNext(tree: Quadtree, elems: seq<Elem>, n: nat)
    requires tree.Valid() && n < |elems| && DistinctPositions(elems, tree.bounds)
    requires DistinctPositions(elems[..n], tree.bounds) && DistinctPositions(elems[..n + 1], tree.bounds)
    requires tree.Contents == Built(elems[..n], tree.bounds)
    modifies tree.Repr
    ensures tree.Valid() && fresh(tree.Repr - old(tree.Repr))
    ensures tree.Contents == Built(elems[..n + 1], tree.bounds)
  {
    StoredApart(elems, n, tree.bounds, Elements(tree.Contents));
    var ok := tree.Insert(elems[n]);
    assert elems[..n + 1][..n] == elems[..n];
  }

  /** Inserts the particles into a fresh tree over the region, in their order; those outside
      the region are turned away. */
  method BuildTree(elems: seq<Elem>, width: real, height: real) returns (tree: Quadtree)
    requires DistinctPositions(elems, Rect(0.0, 0.0, width, height))
    ensures tree.Valid() && fresh(tree.Repr)
    ensures tree.bounds == Rect(0.0, 0.0, width, height)
    ensures tree.Contents == Built(elems, tree.bounds)
    ensures multiset(Elements(tree.Contents)) == multiset(InBounds(elems, tree.bounds))
  {
    tree := new Quadtree(width, height);
    var n := 0;
    while n < |elems|
      invariant 0 <= n <= |elems|
      invariant tree.Valid() && fresh(tree.Repr)
      invariant tree.bounds == Rect(0.0, 0.0, width, height)
      invariant DistinctPositions(elems[..n], tree.bounds)
      invariant tree.Contents == Built(elems[..n], tree.bounds)
    {
      DistinctPrefix(elems, tree.bounds, n + 1);
      InsertNext(tree, elems, n);
      n := n + 1;
    }
    assert elems[..n] == elems;
  }

  /** `points` are what the lookup and the filter give particle `e`: the entries of `table`
      for the frontier its opening test selects in `t`, listed in the order `order`, with the
      point linked to `e` dropped. */
  ghost predicate Gathered(t: Tree, table: Table, opening: Elem -> (Rect -> bool), e: Elem,
                           order: seq<Path>, points: seq<MassPoint>) {
    Enumerates(order, Fitting(t, opening(e), [])) &&
    points == WithoutLinked(Present(table, order), e.id)
  }

  /** Runs the lookup and the filter for every particle, in their order. */
  method GatherAll(tree: Quadtree, table: Table, elems: seq<Elem>, opening: Elem -> (Rect -> bool))
    returns (used: seq<seq<MassPoint>>, ghost orders: seq<seq<Path>>)
    requires tree.Valid()
    ensures |used| == |elems| && |orders| == |elems|
    ensures forall i | 0 <= i < |elems| ::
              Gathered(tree.Contents, table, opening, elems[i], orders[i], used[i])
  {
    used, orders := [], [];
    var i := 0;
    while i < |elems|
      invariant 0 <= i <= |elems|
      invariant |used| == i && |orders| == i
      invariant forall k | 0 <= k < i ::
                  Gathered(tree.Contents, table, opening, elems[k], orders[k], used[k])
    {
      var paths := tree.GetPathsFitting(opening(elems[i]));
      var points, order := LookUp(table, paths);
      var kept := ExcludeSelf(points, elems[i].id);
      assert Gathered(tree.Contents, table, opening, elems[i], order, kept);
      used, orders := used + [kept], orders + [order];
      i := i + 1;
    }
  }

  /** The part of the step after the tree is built: fills the centre-of-mass table, gathers
      for each particle the points of the frontier its opening test selects, its own point
      dropped, and returns the region listing of the tree. */
  method ProcessTree(tree: Quadtree, elems: seq<Elem>, opening: Elem -> (Rect -> bool))
    returns (regions: map<Path, Rect>, used: seq<seq<MassPoint>>, ghost orders: seq<seq<Path>>)
    requires tree.Valid()
    ensures regions == Regions(tree.Contents, [])
    ensures |used| == |elems| && |orders| == |elems|
    ensures forall i | 0 <= i < |elems| ::
              Gathered(tree.Contents, TableOf(tree.Contents, []), opening, elems[i], orders[i], used[i])
  {
    var cw := new CalculateWeights();
    var table := cw.Calculate(tree);
    assert table == TableOf(tree.Contents, []) by {
      assert map[] + TableOf(tree.Contents, []) == TableOf(tree.Contents, []);
    }
    used, orders := GatherAll(tree, table, elems, opening);
    regions := tree.GetRegions();
  }

  /** One step, up to the integration: builds the tree of the particles inside the region,
      then fills the table and gathers each particle's points on it; returns the region
      listing. */
  method RunSimulation(elems: seq<Elem>, width: real, height: real, opening: Elem -> (Rect -> bool))
    returns (regions: map<Path, Rect>, used: seq<seq<MassPoint>>, ghost t: Tree, ghost orders: seq<seq<Path>>)
    requires DistinctPositions(elems, Rect(0.0, 0.0, width, height))
    ensures t == Built(elems, Rect(0.0, 0.0, width, height))
    ensures WellFormed(t) && t.bounds == Rect(0.0, 0.0, width, height)
    ensures multiset(Elements(t)) == multiset(InBounds(elems, Rect(0.0, 0.0, width, height)))
    ensures regions == Regions(t, [])
    ensures |used| == |elems| && |orders| == |elems|
    ensures forall i | 0 <= i < |elems| ::
              Gathered(t, TableOf(t, []), opening, elems[i], orders[i], used[i])
  {
    var tree := BuildTree(elems, width, height);
    t := tree.Contents;
    regions, used, orders := ProcessTree(tree, elems, opening);
  }
}
