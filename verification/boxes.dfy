/** Points, four-corner boxes and their axis-aligned bounds, as shared by
    detection and OCR (`get_bbox_coords` is defined identically in both). */
module Boxes {
  import opened Common

  datatype Point = Point(x: real, y: real)

  /** A box as four corners in top-left, top-right, bottom-right,
      bottom-left order. */
  datatype Quad = Quad(tl: Point, tr: Point, br: Point, bl: Point)

  /** The tuple `(min_x, min_y, max_x, max_y, center_y)` returned by
      `get_bbox_coords`. */
  datatype BBox = BBox(minX: real, minY: real, maxX: real, maxY: real, centerY: real)

  /** A box in the flat integer form `[x_min, y_min, x_max, y_max]`. */
  datatype FlatBox = FlatBox(xMin: int, yMin: int, xMax: int, yMax: int)

  predicate WellFormed(b: BBox) { b.minX <= b.maxX && b.minY <= b.maxY }

  /** Point `p` lies inside the bounds `b` (borders included). */
  predicate Holds(b: BBox, p: Point) { b.minX <= p.x <= b.maxX && b.minY <= p.y <= b.maxY }

  function Corners(q: Quad): seq<Point> { [q.tl, q.tr, q.br, q.bl] }

  function Min4(a: real, b: real, c: real, d: real): real
  {
    MinReal(MinReal(a, b), MinReal(c, d))
  }

  function Max4(a: real, b: real, c: real, d: real): real
  {
    MaxReal(MaxReal(a, b), MaxReal(c, d))
  }

  /** `get_bbox_coords`: the column-wise minimum and maximum of the corners,
      and the midpoint of the vertical extent. */
  function BBoxOf(q: Quad): (b: BBox)
    ensures Holds(b, q.tl) && Holds(b, q.tr) && Holds(b, q.br) && Holds(b, q.bl)
    ensures b.minY <= b.centerY <= b.maxY && b.centerY - b.minY == b.maxY - b.centerY
    ensures WellFormed(b)
  {
    var minY := Min4(q.tl.y, q.tr.y, q.br.y, q.bl.y);
    var maxY := Max4(q.tl.y, q.tr.y, q.br.y, q.bl.y);
    BBox(Min4(q.tl.x, q.tr.x, q.br.x, q.bl.x), minY,
         Max4(q.tl.x, q.tr.x, q.br.x, q.bl.x), maxY,
         (minY + maxY) / 2.0)
  }

  /** The bounds are tight: each one is attained by some corner. */
  lemma BBoxOfTight(q: Quad)
    ensures var b := BBoxOf(q);
            (exists p :: p in Corners(q) && p.x == b.minX) && (exists p :: p in Corners(q) && p.x == b.maxX)
            && (exists p :: p in Corners(q) && p.y == b.minY) && (exists p :: p in Corners(q) && p.y == b.maxY)
  {
    var b := BBoxOf(q);
    var cs := Corners(q);
    assert q.tl in cs && q.tr in cs && q.br in cs && q.bl in cs;
    assert b.minX in {q.tl.x, q.tr.x, q.br.x, q.bl.x};
    assert b.maxX in {q.tl.x, q.tr.x, q.br.x, q.bl.x};
    assert b.minY in {q.tl.y, q.tr.y, q.br.y, q.bl.y};
    assert b.maxY in {q.tl.y, q.tr.y, q.br.y, q.bl.y};
  }

  /** The upright rectangle with the given bounds, corners in TL, TR, BR, BL
      order. */
  function RectQuad(minX: real, minY: real, maxX: real, maxY: real): Quad
  {
    Quad(Point(minX, minY), Point(maxX, minY), Point(maxX, maxY), Point(minX, maxY))
  }

  /** Box `a` lies inside box `b` (borders may touch). */
  predicate Within(a: BBox, b: BBox)
  {
    b.minX <= a.minX && a.maxX <= b.maxX && b.minY <= a.minY && a.maxY <= b.maxY
  }

  /** The smallest upright rectangle holding both boxes, in four-corner form. */
  function UnionRect(a: BBox, b: BBox): (q: Quad)
    requires WellFormed(a) && WellFormed(b)
    ensures Within(a, BBoxOf(q)) && Within(b, BBoxOf(q))
    ensures WellFormed(BBoxOf(q))
    ensures forall c: BBox :: Within(a, c) && Within(b, c) ==> Within(BBoxOf(q), c)
    ensures q.tl.y == q.tr.y && q.br.y == q.bl.y && q.tl.x == q.bl.x && q.tr.x == q.br.x
  {
    var q := RectQuad(MinReal(a.minX, b.minX), MinReal(a.minY, b.minY),
                      MaxReal(a.maxX, b.maxX), MaxReal(a.maxY, b.maxY));
    RectBounds(MinReal(a.minX, b.minX), MinReal(a.minY, b.minY),
               MaxReal(a.maxX, b.maxX), MaxReal(a.maxY, b.maxY));
    q
  }

  /** The bounds of an upright rectangle are its own parameters. */
  lemma RectBounds(minX: real, minY: real, maxX: real, maxY: real)
    requires minX <= maxX && minY <= maxY
    ensures var b := BBoxOf(RectQuad(minX, minY, maxX, maxY));
            b.minX == minX && b.minY == minY && b.maxX == maxX && b.maxY == maxY
            && b.centerY == (minY + maxY) / 2.0
  {
  }

  lemma WithinTransitive(a: BBox, b: BBox, c: BBox)
    requires Within(a, b) && Within(b, c)
    ensures Within(a, c)
  {
  }
}
