/** Plane geometry used by the quadtree: points and axis-aligned rectangles.

    The repository's `Vec2`, `Rectangle` and `Bounded` types are not part of this model.
    `Rect` stands in for them with a concrete definition chosen so that the four quadrants
    of a rectangle partition it exactly: a rectangle is the half-open box
    [x, x + w) x [y, y + h), "north" is the half with the smaller y and "west" the half with
    the smaller x. */
module Geometry {

  datatype Vec2 = Vec2(x: real, y: real) {
    function Add(o: Vec2): Vec2 { Vec2(x + o.x, y + o.y) }
    function Scale(k: real): Vec2 { Vec2(x * k, y * k) }
  }

  const Origin := Vec2(0.0, 0.0)

  datatype Rect = Rect(x: real, y: real, w: real, h: real) {
    predicate Contains(p: Vec2) {
      x <= p.x < x + w && y <= p.y < y + h
    }
    function North(): Rect { Rect(x, y, w, h / 2.0) }
    function South(): Rect { Rect(x, y + h / 2.0, w, h / 2.0) }
    function West(): Rect { Rect(x, y, w / 2.0, h) }
    function East(): Rect { Rect(x + w / 2.0, y, w / 2.0, h) }
  }

  /** The north and south halves split a rectangle without gap or overlap, and so do the
      west and east halves. */
  lemma HalvesPartition(r: Rect, p: Vec2)
    ensures r.Contains(p) <==> r.North().Contains(p) || r.South().Contains(p)
    ensures !(r.North().Contains(p) && r.South().Contains(p))
    ensures r.Contains(p) <==> r.West().Contains(p) || r.East().Contains(p)
    ensures !(r.West().Contains(p) && r.East().Contains(p))
  {
  }
}
