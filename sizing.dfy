/** Sizing of the shape being created while the mouse is dragged: the cursor
    is clamped to the canvas, and each dimension is capped by the room left
    between the press point and the canvas edge in the drag direction. */
module Sizing {
  import opened Geometry

  /** p lies on the closed canvas rectangle. */
  predicate OnCanvas(canvas: Box, p: Vec) {
    canvas.left <= p.x <= Right(canvas) && canvas.top <= p.y <= Bottom(canvas)
  }

  /** Each coordinate of p clamped to the canvas: the point of the canvas
      nearest to p on each axis separately. */
  function ClampToCanvas(canvas: Box, p: Vec): (q: Vec)
    requires canvas.width >= 0.0 && canvas.height >= 0.0
    ensures OnCanvas(canvas, q)
    ensures OnCanvas(canvas, p) ==> q == p
    ensures Contains(canvas, p) ==> q == p
    ensures forall c :: OnCanvas(canvas, c) ==> Abs(q.x - p.x) <= Abs(c.x - p.x) && Abs(q.y - p.y) <= Abs(c.y - p.y)
  {
    Vec(Clamp(p.x, canvas.left, Right(canvas)), Clamp(p.y, canvas.top, Bottom(canvas)))
  }

  /** The radius of a circle centred on the press point `start`: the requested
      radius, capped by the distance from `start` to the nearest canvas edge,
      and never negative.  A capped radius is exactly one of those distances,
      so it is the largest radius that fits. */
  function CircleRadius(start: Vec, canvas: Box, requested: real): (r: real)
    ensures OnCanvas(canvas, start) ==>
      0.0 <= r &&
      r <= start.x - canvas.left && r <= Right(canvas) - start.x &&
      r <= start.y - canvas.top && r <= Bottom(canvas) - start.y &&
      Within(Bounds(CircleShape(start, Vec(r, r), r)), canvas)
    ensures r <= Max(requested, 0.0)
    ensures
      && 0.0 <= requested
      && requested <= start.x - canvas.left && requested <= Right(canvas) - start.x
      && requested <= start.y - canvas.top && requested <= Bottom(canvas) - start.y
      ==> r == requested
    ensures OnCanvas(canvas, start) && 0.0 <= requested ==>
      r == requested ||
      r == start.x - canvas.left || r == Right(canvas) - start.x ||
      r == start.y - canvas.top || r == Bottom(canvas) - start.y
    ensures requested <= 0.0 ==> r == 0.0
  {
    var maxR := Min(Min(start.x - canvas.left, Right(canvas) - start.x),
                    Min(start.y - canvas.top, Bottom(canvas) - start.y));
    Max(0.0, Min(requested, maxR))
  }

  /** The radius of a circle dragged from `start` to the clamped cursor
      `cursor`: half the drag distance (`sqrt` is the square root), capped as
      CircleRadius caps it. */
  function DragRadius(start: Vec, cursor: Vec, canvas: Box, sqrt: real -> real): (r: real)
    ensures OnCanvas(canvas, start) ==> 0.0 <= r && Within(Bounds(CircleShape(start, Vec(r, r), r)), canvas)
    ensures IsSqrt(sqrt) ==> r <= 0.5 * sqrt(Dot(Sub(cursor, start), Sub(cursor, start)))
  {
    SquaresNonNegative(Sub(cursor, start));
    CircleRadius(start, canvas, 0.5 * sqrt(Dot(Sub(cursor, start), Sub(cursor, start))))
  }

  /** One axis of a rectangle or triangle drag from `start` to `cursor`
      within [lo, hi]: the extent is |cursor - start| capped by the room in
      the drag direction, and the shape's position is moved back by the
      extent when the drag goes towards lo.  Result: (position, extent). */
  function DragAxis(start: real, cursor: real, lo: real, hi: real): (r: (real, real))
    ensures lo <= start <= hi ==> 0.0 <= r.1 && lo <= r.0 && r.0 + r.1 <= hi
    ensures lo <= start <= hi && lo <= cursor <= hi ==> r.0 == Min(start, cursor) && r.1 == Abs(cursor - start)
  {
    var delta := cursor - start;
    var extent := Min(Abs(delta), if delta >= 0.0 then hi - start else start - lo);
    (if delta < 0.0 then start - extent else start, extent)
  }

  /** The bounding box of a rectangle or triangle dragged from `start` to the
      clamped cursor `cursor`. */
  function DragBox(start: Vec, cursor: Vec, canvas: Box): (b: Box)
    ensures OnCanvas(canvas, start) ==> b.width >= 0.0 && b.height >= 0.0 && Within(b, canvas)
    ensures OnCanvas(canvas, start) && OnCanvas(canvas, cursor) ==>
      b == Box(Min(start.x, cursor.x), Min(start.y, cursor.y), Abs(cursor.x - start.x), Abs(cursor.y - start.y))
  {
    var (x, w) := DragAxis(start.x, cursor.x, canvas.left, Right(canvas));
    var (y, h) := DragAxis(start.y, cursor.y, canvas.top, Bottom(canvas));
    Box(x, y, w, h)
  }
}
