/** Plane geometry used by the sandbox: vectors, axis-aligned boxes and the
    three drawable shapes (circle, rectangle, isosceles triangle).  Every shape
    has an anchor position; its bounding box moves exactly with the anchor. */
module Geometry {

  datatype Vec = Vec(x: real, y: real)

  function Add(a: Vec, b: Vec): Vec { Vec(a.x + b.x, a.y + b.y) }
  function Sub(a: Vec, b: Vec): Vec { Vec(a.x - b.x, a.y - b.y) }
  function Scale(a: Vec, k: real): Vec { Vec(k * a.x, k * a.y) }
  function Dot(a: Vec, b: Vec): real { a.x * b.x + a.y * b.y }
  /** Zero exactly when the two vectors are parallel. */
  function Cross(a: Vec, b: Vec): real { a.x * b.y - a.y * b.x }

  /** `sqrt` is a square root on the non-negative reals.  The floating-point
      square root of the C++ library is modelled by this property only. */
  ghost predicate IsSqrt(sqrt: real -> real) {
    forall x: real {:trigger sqrt(x)} :: 0.0 <= x ==> 0.0 <= sqrt(x) && sqrt(x) * sqrt(x) == x
  }

  lemma SquaresNonNegative(d: Vec)
    ensures Dot(d, d) >= 0.0
  {
    assert d.x * d.x >= 0.0 && d.y * d.y >= 0.0;
  }

  function Min(a: real, b: real): real { if a <= b then a else b }
  function Max(a: real, b: real): real { if a >= b then a else b }
  function Abs(a: real): real { if a < 0.0 then -a else a }

  /** The C++ library's clamp: `v < lo ? lo : (hi < v ? hi : v)`; it needs lo <= hi. */
  function Clamp(v: real, lo: real, hi: real): (r: real)
    requires lo <= hi
    ensures lo <= r <= hi
    ensures lo <= v <= hi ==> r == v
    ensures v < lo ==> r == lo
    ensures hi < v ==> r == hi
  {
    if v < lo then lo else if hi < v then hi else v
  }

  /** An axis-aligned rectangle given by its top-left corner and its extent
      (the y axis points down, as on screen). */
  datatype Box = Box(left: real, top: real, width: real, height: real)

  function Right(b: Box): real { b.left + b.width }
  function Bottom(b: Box): real { b.top + b.height }

  function Translate(b: Box, d: Vec): Box { b.(left := b.left + d.x, top := b.top + d.y) }

  /** The graphics library's point test: the lower edges are inside, the upper
      edges are not (the box is normalised first, so a negative extent works too). */
  predicate Contains(b: Box, p: Vec): (r: bool)
    ensures b.width >= 0.0 && b.height >= 0.0 ==>
      (r <==> b.left <= p.x < Right(b) && b.top <= p.y < Bottom(b))
  {
    Min(b.left, Right(b)) <= p.x < Max(b.left, Right(b)) &&
    Min(b.top, Bottom(b)) <= p.y < Max(b.top, Bottom(b))
  }

  /** The graphics library's overlap test: the normalised boxes share an area
      of positive width and positive height. */
  predicate Intersects(a: Box, b: Box): (r: bool)
    ensures r ==> a.width != 0.0 && a.height != 0.0 && b.width != 0.0 && b.height != 0.0
  {
    Max(Min(a.left, Right(a)), Min(b.left, Right(b))) < Min(Max(a.left, Right(a)), Max(b.left, Right(b))) &&
    Max(Min(a.top, Bottom(a)), Min(b.top, Bottom(b))) < Min(Max(a.top, Bottom(a)), Max(b.top, Bottom(b)))
  }

  /** Box `b` lies within box `outer` (both with non-negative extent). */
  predicate Within(b: Box, outer: Box) {
    outer.left <= b.left && Right(b) <= Right(outer) &&
    outer.top <= b.top && Bottom(b) <= Bottom(outer)
  }

  /** For boxes of non-negative extent the overlap test is the plain strict
      interval overlap on both axes; in particular a box of zero width or
      height overlaps nothing.  The test is symmetric. */
  lemma IntersectsPlain(a: Box, b: Box)
    requires a.width >= 0.0 && a.height >= 0.0 && b.width >= 0.0 && b.height >= 0.0
    ensures Intersects(a, b) <==>
      (a.left < Right(b) && b.left < Right(a) && a.top < Bottom(b) && b.top < Bottom(a) &&
       a.width > 0.0 && a.height > 0.0 && b.width > 0.0 && b.height > 0.0)
    ensures Intersects(a, b) <==> Intersects(b, a)
  {
    assert Min(a.left, Right(a)) == a.left && Max(a.left, Right(a)) == Right(a);
    assert Min(b.left, Right(b)) == b.left && Max(b.left, Right(b)) == Right(b);
    assert Min(a.top, Bottom(a)) == a.top && Max(a.top, Bottom(a)) == Bottom(a);
    assert Min(b.top, Bottom(b)) == b.top && Max(b.top, Bottom(b)) == Bottom(b);
  }

  /** A shape of the sandbox, with the library class it stands for.
      - CircleShape: `pos` is the position, `origin` the local point placed at
        `pos` (the top-left of the enclosing square at creation, the centre once
        the shape has been sized), `radius` the radius.
      - RectangleShape: `pos` is the top-left corner, `size` the extent.
      - ConvexShape: the triangle with local points (0, height), (width/2, 0),
        (width, height); `pos` is the top-left corner of its bounding box. */
  datatype Shape =
    | CircleShape(pos: Vec, origin: Vec, radius: real)
    | RectangleShape(pos: Vec, size: Vec)
    | ConvexShape(pos: Vec, width: real, height: real)

  /** The global bounding box of a shape (outline thickness not included).
      A rectangle's or triangle's box starts at its position; a circle's box
      is the square of side 2 * radius, centred on the position once the
      origin is the centre. */
  function Bounds(s: Shape): (b: Box)
    ensures !s.CircleShape? ==> b.left == s.pos.x && b.top == s.pos.y
    ensures s.RectangleShape? ==> b.width == s.size.x && b.height == s.size.y
    ensures s.ConvexShape? ==> b.width == s.width && b.height == s.height
    ensures s.CircleShape? ==> b.width == 2.0 * s.radius && b.height == 2.0 * s.radius
    ensures s.CircleShape? && s.origin == Vec(s.radius, s.radius) ==>
      b.left + s.radius == s.pos.x && b.top + s.radius == s.pos.y
  {
    match s
    case CircleShape(p, o, r) => Box(p.x - o.x, p.y - o.y, 2.0 * r, 2.0 * r)
    case RectangleShape(p, sz) => Box(p.x, p.y, sz.x, sz.y)
    case ConvexShape(p, w, h) => Box(p.x, p.y, w, h)
  }

  /** The library's `move`: shift the position, nothing else. */
  function Move(s: Shape, d: Vec): (r: Shape)
    ensures r.pos == Add(s.pos, d)
    ensures SameGeometry(r, s)
    ensures Bounds(r) == Translate(Bounds(s), d)
  {
    s.(pos := Add(s.pos, d))
  }

  /** Same kind of shape with the same dimensions: only the position may differ. */
  predicate SameGeometry(a: Shape, b: Shape) {
    match a
    case CircleShape(_, o, r) => b.CircleShape? && b.origin == o && b.radius == r
    case RectangleShape(_, sz) => b.RectangleShape? && b.size == sz
    case ConvexShape(_, w, h) => b.ConvexShape? && b.width == w && b.height == h
  }
}
