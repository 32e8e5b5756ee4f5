/** Properties of the three traversals, stated through the node a path leads to: the region
    listing has one key per node, the truncated descent returns a frontier (an antichain that
    covers every occupied leaf), and the fold visits the nodes in post-order. */
module QuadtreePaths {
  import opened Options
  import opened Geometry
  import opened QuadtreeSpec

  /** The node reached from the root of `t` by following `rel`, if there is one. */
  function NodeAt(t: Tree, rel: Path): Option<Tree>
    decreases |rel|
  {
    if rel == [] then Some(t)
    else if t.Leaf? then None
    else NodeAt(Child(t, rel[0]), rel[1..])
  }

  lemma PrefixStep(pre: Path, d: Direction, q: Path)
    requires pre <= q && |q| > |pre| && q[|pre|] == d
    ensures pre + [d] <= q && q[|pre|..][1..] == q[|pre| + 1..] && q[|pre|..][0] == d
  {
    assert (pre + [d]) == q[..|pre| + 1];
  }

  /** The keys of the region listing of the subtree at `pre` are the paths of its nodes, and
      each is mapped to the region of its node. */
  lemma {:induction false} RegionsAt(t: Tree, pre: Path, q: Path)
    ensures q in Regions(t, pre) <==> pre <= q && NodeAt(t, q[|pre|..]).Some?
    ensures q in Regions(t, pre) ==> Regions(t, pre)[q] == NodeAt(t, q[|pre|..]).value.bounds
  {
    match t
    case Leaf(b, _) =>
      if pre <= q && q != pre {
        assert q[|pre|..] != [];
      }
      if q == pre {
        assert q[|pre|..] == [];
      }
    case Internal(b, nw, ne, sw, se) =>
      RegionsAt(nw, pre + [NW], q);
      RegionsAt(ne, pre + [NE], q);
      RegionsAt(sw, pre + [SW], q);
      RegionsAt(se, pre + [SE], q);
      if q == pre {
        assert q[|pre|..] == [];
      } else if pre <= q {
        assert |q| > |pre|;
        var d := q[|pre|];
        PrefixStep(pre, d, q);
        assert NodeAt(t, q[|pre|..]) == NodeAt(Child(t, d), q[|pre| + 1..]);
        assert |pre + [d]| == |pre| + 1;
      }
  }

  /** The listing of a whole tree: a path is a key exactly when it leads to a node, and the
      region it maps to is that node's. */
  lemma RegionsOfTree(t: Tree, q: Path)
    ensures q in Regions(t, []) <==> NodeAt(t, q).Some?
    ensures q in Regions(t, []) ==> Regions(t, [])[q] == NodeAt(t, q).value.bounds
  {
    RegionsAt(t, [], q);
    assert q[0..] == q;
  }

  /** The descent stops at a node: an occupied leaf, or an internal node whose region passes
      the test. */
  predicate Stops(n: Tree, pred: Rect -> bool) {
    if n.Leaf? then n.elem.Some? else pred(n.bounds)
  }

  /** Following `rel` from the root of `t` passes only through internal nodes whose region
      fails the test, so the descent goes on along it. */
  predicate Open(t: Tree, pred: Rect -> bool, rel: Path)
    decreases |rel|
  {
    rel == [] || (t.Internal? && !pred(t.bounds) && Open(Child(t, rel[0]), pred, rel[1..]))
  }

  /** The descent reaches the node at `rel` and stops there. */
  predicate Reached(t: Tree, pred: Rect -> bool, rel: Path) {
    Open(t, pred, rel) && NodeAt(t, rel).Some? && Stops(NodeAt(t, rel).value, pred)
  }

  /** The paths the descent below `pre` returns are exactly those it reaches and stops at. */
  lemma {:induction false} FittingAt(t: Tree, pred: Rect -> bool, pre: Path, q: Path)
    ensures q in Fitting(t, pred, pre) <==> pre <= q && Reached(t, pred, q[|pre|..])
  {
    match t
    case Leaf(b, e) =>
      if pre <= q && q != pre {
        assert q[|pre|..] != [];
      }
      if q == pre {
        assert q[|pre|..] == [];
      }
    case Internal(b, nw, ne, sw, se) =>
      if q == pre {
        assert q[|pre|..] == [];
        FittingExtendsStrictly(t, pred, pre);
      } else if pred(b) {
        if pre <= q {
          assert q[|pre|..] != [];
        }
      } else {
        FittingAt(nw, pred, pre + [NW], q);
        FittingAt(ne, pred, pre + [NE], q);
        FittingAt(sw, pred, pre + [SW], q);
        FittingAt(se, pred, pre + [SE], q);
        if pre <= q {
          assert |q| > |pre|;
          var d := q[|pre|];
          PrefixStep(pre, d, q);
          assert |pre + [d]| == |pre| + 1;
          assert NodeAt(t, q[|pre|..]) == NodeAt(Child(t, d), q[|pre| + 1..]);
          assert Open(t, pred, q[|pre|..]) == Open(Child(t, d), pred, q[|pre| + 1..]);
        }
      }
  }

  /** Every path the descent below `pre` returns extends `pre`; below an internal node whose
      region fails the test, it extends it strictly. */
  lemma {:induction false} FittingExtendsStrictly(t: Tree, pred: Rect -> bool, pre: Path)
    ensures forall q | q in Fitting(t, pred, pre) :: pre <= q
    ensures t.Internal? && !pred(t.bounds) ==> pre !in Fitting(t, pred, pre)
  {
    match t
    case Leaf(_, _) =>
    case Internal(b, nw, ne, sw, se) =>
      if !pred(b) {
        FittingExtendsStrictly(nw, pred, pre + [NW]);
        FittingExtendsStrictly(ne, pred, pre + [NE]);
        FittingExtendsStrictly(sw, pred, pre + [SW]);
        FittingExtendsStrictly(se, pred, pre + [SE]);
      }
  }

  lemma {:induction false} ReachedAntichain(t: Tree, pred: Rect -> bool, r1: Path, r2: Path)
    requires Reached(t, pred, r1) && Reached(t, pred, r2) && r1 <= r2
    ensures r1 == r2
    decreases |r1|
  {
    if r1 == [] {
    } else {
      var d := r1[0];
      assert r2[0] == d;
      assert r1[1..] <= r2[1..];
      ReachedAntichain(Child(t, d), pred, r1[1..], r2[1..]);
    }
  }

  /** The descent returns a frontier: no returned path is a proper prefix of another. */
  lemma FittingAntichain(t: Tree, pred: Rect -> bool, q1: Path, q2: Path)
    requires q1 in Fitting(t, pred, []) && q2 in Fitting(t, pred, []) && q1 <= q2
    ensures q1 == q2
  {
    FittingAt(t, pred, [], q1);
    FittingAt(t, pred, [], q2);
    assert q1[0..] == q1 && q2[0..] == q2;
    ReachedAntichain(t, pred, q1, q2);
  }

  /** The descent accounts for every occupied leaf: some prefix of the leaf's path is
      returned. */
  lemma {:induction false} FittingCovers(t: Tree, pred: Rect -> bool, pre: Path, rel: Path) returns (k: nat)
    requires NodeAt(t, rel).Some? && NodeAt(t, rel).value.Leaf? && NodeAt(t, rel).value.elem.Some?
    ensures k <= |rel| && pre + rel[..k] in Fitting(t, pred, pre)
    decreases |rel|
  {
    if rel == [] {
      k := 0;
      assert pre + rel[..0] == pre;
    } else if pred(t.bounds) {
      k := 0;
      assert pre + rel[..0] == pre;
    } else {
      var d := rel[0];
      var c := Child(t, d);
      var k' := FittingCovers(c, pred, pre + [d], rel[1..]);
      k := k' + 1;
      assert pre + rel[..k] == (pre + [d]) + rel[1..][..k'];
      assert Fitting(c, pred, pre + [d]) <= Fitting(t, pred, pre) by {
        match d
        case NW =>
        case NE =>
        case SW =>
        case SE =>
      }
    }
  }

  /** The order of the post-order fold: `a` is visited before `b` when `b` is a proper prefix
      of `a` (descendants come before their ancestor), or when at the first position where the
      two differ `a` takes the earlier direction in NW, NE, SW, SE order. */
  predicate PostBefore(a: Path, b: Path)
    decreases |b|
  {
    if |b| == 0 then |a| > 0
    else if |a| == 0 then false
    else if a[0] == b[0] then PostBefore(a[1..], b[1..])
    else Rank(a[0]) < Rank(b[0])
  }

  function Rank(d: Direction): nat {
    match d
    case NW => 0
    case NE => 1
    case SW => 2
    case SE => 3
  }

  lemma {:induction false} PostBeforeIrreflexive(a: Path)
    ensures !PostBefore(a, a)
    decreases |a|
  {
    if |a| > 0 {
      PostBeforeIrreflexive(a[1..]);
    }
  }

  lemma {:induction false} PostBeforeCommonPrefix(pre: Path, x: Path, y: Path)
    ensures PostBefore(pre + x, pre + y) == PostBefore(x, y)
    decreases |pre|
  {
    if |pre| > 0 {
      assert (pre + x)[0] == pre[0] == (pre + y)[0];
      assert (pre + x)[1..] == pre[1..] + x;
      assert (pre + y)[1..] == pre[1..] + y;
      PostBeforeCommonPrefix(pre[1..], x, y);
    } else {
      assert pre + x == x && pre + y == y;
    }
  }

  /** Below a node, the subtrees of earlier directions come first, and the node comes last. */
  lemma SiblingsBefore(pre: Path, d1: Direction, d2: Direction, x: Path, y: Path)
    requires Rank(d1) < Rank(d2) && pre + [d1] <= x && pre + [d2] <= y
    ensures PostBefore(x, y)
  {
    var x', y' := x[|pre| + 1..], y[|pre| + 1..];
    assert x == pre + ([d1] + x');
    assert y == pre + ([d2] + y');
    PostBeforeCommonPrefix(pre, [d1] + x', [d2] + y');
  }

  lemma DescendantBefore(pre: Path, d: Direction, x: Path)
    requires pre + [d] <= x
    ensures PostBefore(x, pre)
  {
    var x' := x[|pre| + 1..];
    assert x == pre + ([d] + x');
    assert pre == pre + [];
    PostBeforeCommonPrefix(pre, [d] + x', []);
  }

  /** The paths in the order the fold visits them. */
  function Visits(t: Tree, pre: Path): seq<Path> {
    match t
    case Leaf(_, _) => [pre]
    case Internal(_, nw, ne, sw, se) =>
      Visits(nw, pre + [NW]) + Visits(ne, pre + [NE]) + Visits(sw, pre + [SW])
      + Visits(se, pre + [SE]) + [pre]
  }

  /** A folder that records the path of every visit, in the order of the visits. */
  function Tracer(): Folder<seq<Path>, ()> {
    Folder((s: seq<Path>, path: Path) => (s + [path], ()),
           (s: seq<Path>, path: Path, e: Elem) => (s + [path], ()),
           (s: seq<Path>, path: Path, a: (), b: (), c: (), d: ()) => (s + [path], ()))
  }

  /** The fold makes its visits in the order Visits lists. */
  lemma {:induction false} FoldTrace(t: Tree, s: seq<Path>, pre: Path)
    ensures Fold(t, Tracer(), s, pre).0 == s + Visits(t, pre)
  {
    match t
    case Leaf(_, _) =>
      FoldTraceLeaf(t, s, pre);
    case Internal(_, nw, ne, sw, se) =>
      var va, vb, vc, vd := Visits(nw, pre + [NW]), Visits(ne, pre + [NE]),
                            Visits(sw, pre + [SW]), Visits(se, pre + [SE]);
      var s1 := Fold(nw, Tracer(), s, pre + [NW]).0;
      assert s1 == s + va by { FoldTrace(nw, s, pre + [NW]); }
      var s2 := Fold(ne, Tracer(), s1, pre + [NE]).0;
      assert s2 == s + va + vb by { FoldTrace(ne, s1, pre + [NE]); }
      var s3 := Fold(sw, Tracer(), s2, pre + [SW]).0;
      assert s3 == s + va + vb + vc by { FoldTrace(sw, s2, pre + [SW]); }
      var s4 := Fold(se, Tracer(), s3, pre + [SE]).0;
      assert s4 == s + va + vb + vc + vd by { FoldTrace(se, s3, pre + [SE]); }
      FoldQuadLast(t, s, pre);
      assert s + Visits(t, pre) == s + va + vb + vc + vd + [pre];
  }

  lemma FoldTraceLeaf(t: Tree, s: seq<Path>, pre: Path)
    requires t.Leaf?
    ensures Fold(t, Tracer(), s, pre).0 == s + [pre]
  {
  }

  lemma FoldQuadLast(t: Tree, s: seq<Path>, pre: Path)
    requires t.Internal?
    ensures Fold(t, Tracer(), s, pre).0 ==
      Fold(t.se, Tracer(),
        Fold(t.sw, Tracer(),
          Fold(t.ne, Tracer(),
            Fold(t.nw, Tracer(), s, pre + [NW]).0, pre + [NE]).0, pre + [SW]).0, pre + [SE]).0
      + [pre]
  {
  }

  predicate InPostOrder(v: seq<Path>) {
    forall i, j | 0 <= i < j < |v| :: PostBefore(v[i], v[j])
  }

  lemma InPostOrderConcat(a: seq<Path>, b: seq<Path>)
    requires InPostOrder(a) && InPostOrder(b)
    requires forall x, y | x in a && y in b :: PostBefore(x, y)
    ensures InPostOrder(a + b)
  {
    forall i, j | 0 <= i < j < |a + b|
      ensures PostBefore((a + b)[i], (a + b)[j])
    {
      if j < |a| {
      } else if i >= |a| {
        assert (a + b)[i] == b[i - |a|] && (a + b)[j] == b[j - |a|];
      } else {
        assert (a + b)[i] in a && (a + b)[j] in b;
      }
    }
  }

  lemma {:induction false} VisitsExtend(t: Tree, pre: Path)
    ensures forall v | v in Visits(t, pre) :: pre <= v
  {
    match t
    case Leaf(_, _) =>
    case Internal(_, nw, ne, sw, se) =>
      VisitsExtend(nw, pre + [NW]);
      VisitsExtend(ne, pre + [NE]);
      VisitsExtend(sw, pre + [SW]);
      VisitsExtend(se, pre + [SE]);
  }

  /** The fold visits in post-order: every node after all of its descendants, and the
      subtrees of a node in NW, NE, SW, SE order. */
  lemma {:induction false} VisitsInPostOrder(t: Tree, pre: Path)
    ensures InPostOrder(Visits(t, pre))
  {
    match t
    case Leaf(_, _) =>
    case Internal(_, nw, ne, sw, se) =>
      var a, b, c, d := Visits(nw, pre + [NW]), Visits(ne, pre + [NE]),
                        Visits(sw, pre + [SW]), Visits(se, pre + [SE]);
      VisitsInPostOrder(nw, pre + [NW]);
      VisitsInPostOrder(ne, pre + [NE]);
      VisitsInPostOrder(sw, pre + [SW]);
      VisitsInPostOrder(se, pre + [SE]);
      VisitsExtend(nw, pre + [NW]);
      VisitsExtend(ne, pre + [NE]);
      VisitsExtend(sw, pre + [SW]);
      VisitsExtend(se, pre + [SE]);
      forall x, y | x in a && y in b ensures PostBefore(x, y) {
        SiblingsBefore(pre, NW, NE, x, y);
      }
      InPostOrderConcat(a, b);
      forall x, y | x in a + b && y in c ensures PostBefore(x, y) {
        if x in a { SiblingsBefore(pre, NW, SW, x, y); } else { SiblingsBefore(pre, NE, SW, x, y); }
      }
      InPostOrderConcat(a + b, c);
      forall x, y | x in a + b + c && y in d ensures PostBefore(x, y) {
        if x in a { SiblingsBefore(pre, NW, SE, x, y); }
        else if x in b { SiblingsBefore(pre, NE, SE, x, y); }
        else { SiblingsBefore(pre, SW, SE, x, y); }
      }
      InPostOrderConcat(a + b + c, d);
      forall x, y | x in a + b + c + d && y in [pre] ensures PostBefore(x, y) {
        if x in a { DescendantBefore(pre, NW, x); }
        else if x in b { DescendantBefore(pre, NE, x); }
        else if x in c { DescendantBefore(pre, SW, x); }
        else { DescendantBefore(pre, SE, x); }
      }
      InPostOrderConcat(a + b + c + d, [pre]);
  }

  /** The fold visits exactly the nodes: the paths visited are the keys of the region
      listing. */
  lemma {:induction false} VisitsNodes(t: Tree, pre: Path)
    ensures forall q :: q in Visits(t, pre) <==> q in Regions(t, pre)
  {
    match t
    case Leaf(_, _) =>
    case Internal(_, nw, ne, sw, se) =>
      VisitsNodes(nw, pre + [NW]);
      VisitsNodes(ne, pre + [NE]);
      VisitsNodes(sw, pre + [SW]);
      VisitsNodes(se, pre + [SE]);
  }

  /** The whole-tree fold visits every node exactly once, in post-order. */
  lemma FoldPostOrder(t: Tree)
    ensures forall q :: q in Fold(t, Tracer(), [], []).0 <==> NodeAt(t, q).Some?
    ensures InPostOrder(Fold(t, Tracer(), [], []).0)
    ensures forall i, j | 0 <= i < j < |Fold(t, Tracer(), [], []).0| ::
              Fold(t, Tracer(), [], []).0[i] != Fold(t, Tracer(), [], []).0[j]
  {
    FoldTrace(t, [], []);
    assert [] + Visits(t, []) == Visits(t, []);
    VisitsNodes(t, []);
    VisitsInPostOrder(t, []);
    forall q ensures q in Visits(t, []) <==> NodeAt(t, q).Some? {
      RegionsOfTree(t, q);
    }
    var v := Visits(t, []);
    forall i, j | 0 <= i < j < |v| ensures v[i] != v[j] {
      PostBeforeIrreflexive(v[i]);
    }
  }
}
