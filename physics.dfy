/** The per-frame simulation of the sandbox: gravity integration, ground
    contact with restitution and friction, and the one-pass pairwise impulse
    exchange, together with the order in which one frame applies them. */
module Physics {
  import opened Geometry

  /** One simulated body: its shape (which carries the position), its
      velocity, its coefficient of restitution and its mass. */
  datatype PhysicsObject = PhysicsObject(shape: Shape, velocity: Vec, elasticity: real, mass: real)

  /** Downward acceleration: 9.81 m/s^2 at 50 world units per metre. */
  const GRAVITY: real := 490.5
  /** Fixed separation applied to a resolved pair, half to each body. */
  const PENETRATION: real := 1.0
  /** Speeds below this magnitude are set to zero after a ground contact. */
  const SNAP_SPEED: real := 1.0

  function Anchor(o: PhysicsObject): Vec { o.shape.pos }

  /** The vertical coordinate of the ground's top edge: the ground is a band
      of height groundHeight along the bottom of the canvas. */
  function GroundY(canvas: Box, groundHeight: real): (y: real)
    ensures y + groundHeight == Bottom(canvas)
    ensures 0.0 <= groundHeight <= canvas.height ==> canvas.top <= y <= Bottom(canvas)
  {
    canvas.top + canvas.height - groundHeight
  }

  // ---------------------------------------------------------------------
  // One body: integration and ground contact
  // ---------------------------------------------------------------------

  /** Semi-implicit Euler: gravity changes the vertical velocity, then the
      shape moves by the new velocity times dt. */
  function Integrate(o: PhysicsObject, dt: real): (r: PhysicsObject)
    ensures r.velocity.x == o.velocity.x
    ensures r.velocity.y == o.velocity.y + GRAVITY * dt
    ensures Anchor(r) == Add(Anchor(o), Scale(r.velocity, dt))
    ensures Bounds(r.shape) == Translate(Bounds(o.shape), Scale(r.velocity, dt))
    ensures r.mass == o.mass && r.elasticity == o.elasticity && SameGeometry(r.shape, o.shape)
  {
    var v := o.velocity.(y := o.velocity.y + GRAVITY * dt);
    o.(velocity := v, shape := Move(o.shape, Scale(v, dt)))
  }

  /** A speed below SNAP_SPEED is snapped to rest; any other is kept. */
  function Snap(v: real): (r: real)
    ensures r == v || r == 0.0
    ensures Abs(r) <= Abs(v)
    ensures r != 0.0 ==> Abs(r) >= SNAP_SPEED
    ensures Abs(v) >= SNAP_SPEED ==> r == v
  {
    if Abs(v) < SNAP_SPEED then 0.0 else v
  }

  /** A body whose bounding box reaches the ground is lifted so that it rests
      exactly on it; its vertical velocity is reversed and scaled by its
      elasticity, its horizontal velocity is scaled by (1 - friction), and a
      component whose magnitude falls below SNAP_SPEED becomes zero. */
  function GroundContact(o: PhysicsObject, groundY: real, friction: real): (r: PhysicsObject)
    ensures Bottom(Bounds(o.shape)) >= groundY ==>
      Bottom(Bounds(r.shape)) == groundY && Bounds(r.shape).left == Bounds(o.shape).left
    ensures Bottom(Bounds(o.shape)) < groundY ==> r == o
    ensures Bottom(Bounds(r.shape)) <= groundY
    ensures r.mass == o.mass && r.elasticity == o.elasticity && SameGeometry(r.shape, o.shape)
  {
    var b := Bounds(o.shape);
    if Bottom(b) >= groundY then
      var lifted := Move(o.shape, Vec(0.0, groundY - Bottom(b)));
      var vy := -o.velocity.y * o.elasticity;
      var vx := o.velocity.x * (1.0 - friction);
      o.(shape := lifted, velocity := Vec(Snap(vx), Snap(vy)))
    else
      o
  }

  /** Everything one frame does to body i before its pairs are resolved. */
  function Advance(o: PhysicsObject, dt: real, groundY: real, friction: real): (r: PhysicsObject)
    ensures Bottom(Bounds(r.shape)) <= groundY
    ensures r.mass == o.mass && r.elasticity == o.elasticity && SameGeometry(r.shape, o.shape)
  {
    GroundContact(Integrate(o, dt), groundY, friction)
  }

  /** The tangential response: friction 1 stops the body, friction 0 keeps
      any horizontal speed of at least SNAP_SPEED, friction in [0,1] never
      increases the horizontal speed. */
  lemma GroundFriction(o: PhysicsObject, groundY: real, friction: real)
    requires Bottom(Bounds(o.shape)) >= groundY
    ensures friction == 1.0 ==> GroundContact(o, groundY, friction).velocity.x == 0.0
    ensures friction == 0.0 && Abs(o.velocity.x) >= SNAP_SPEED ==>
      GroundContact(o, groundY, friction).velocity.x == o.velocity.x
    ensures 0.0 <= friction <= 1.0 ==>
      Abs(GroundContact(o, groundY, friction).velocity.x) <= Abs(o.velocity.x)
  {
    ContactSlide(o, groundY, friction);
    if 0.0 <= friction <= 1.0 {
      Damped(o.velocity.x, 1.0 - friction);
    }
  }

  /** The horizontal velocity a ground contact leaves. */
  lemma ContactSlide(o: PhysicsObject, groundY: real, friction: real)
    requires Bottom(Bounds(o.shape)) >= groundY
    ensures GroundContact(o, groundY, friction).velocity.x == Snap(o.velocity.x * (1.0 - friction))
  {
  }

  /** Scaling by a factor in [0,1] and then snapping never increases a speed. */
  lemma Damped(v: real, k: real)
    requires 0.0 <= k <= 1.0
    ensures Abs(Snap(v * k)) <= Abs(v)
  {
    if v >= 0.0 {
      assert 0.0 <= v * k <= v;
    } else {
      assert v <= v * k <= 0.0;
    }
  }

  /** The normal response: the rebound is exactly -elasticity times the
      incoming vertical speed unless its magnitude is below SNAP_SPEED, in
      which case it is zero; a body with elasticity 0 comes to rest
      vertically; a body moving down (or at rest) leaves upward or at rest,
      never faster than it came. */
  lemma GroundRestitution(o: PhysicsObject, groundY: real, friction: real)
    requires Bottom(Bounds(o.shape)) >= groundY
    ensures Abs(o.velocity.y * o.elasticity) >= SNAP_SPEED ==>
      GroundContact(o, groundY, friction).velocity.y == -o.elasticity * o.velocity.y
    ensures Abs(o.velocity.y * o.elasticity) < SNAP_SPEED ==>
      GroundContact(o, groundY, friction).velocity.y == 0.0
    ensures o.elasticity == 0.0 ==> GroundContact(o, groundY, friction).velocity.y == 0.0
    ensures 0.0 <= o.elasticity <= 1.0 && o.velocity.y >= 0.0 ==>
      -o.velocity.y <= GroundContact(o, groundY, friction).velocity.y <= 0.0
  {
    var vy := -o.velocity.y * o.elasticity;
    if 0.0 <= o.elasticity <= 1.0 && o.velocity.y >= 0.0 {
      assert o.velocity.y * o.elasticity <= o.velocity.y;
      assert vy <= 0.0;
    }
  }

  // ---------------------------------------------------------------------
  // One pair: impulse exchange along the anchor-to-anchor normal
  // ---------------------------------------------------------------------

  lemma ScaleFacts(v: Vec, n: Vec, k: real)
    ensures Dot(v, Scale(n, k)) == k * Dot(v, n)
    ensures Cross(v, Scale(n, k)) == k * Cross(v, n)
  {
  }

  /** The unit vector along a non-zero vector d: scaled by the length of d
      it gives back d. */
  function Normal(d: Vec, sqrt: real -> real): (n: Vec)
    requires IsSqrt(sqrt) && Dot(d, d) != 0.0
    ensures n.x * sqrt(Dot(d, d)) == d.x && n.y * sqrt(Dot(d, d)) == d.y
  {
    SquaresNonNegative(d);
    var dist := sqrt(Dot(d, d));
    assert dist * dist == Dot(d, d);
    assert dist != 0.0;
    Vec(d.x / dist, d.y / dist)
  }

  /** The normal has length one and d is its multiple by the length of d. */
  lemma NormalFacts(d: Vec, sqrt: real -> real)
    requires IsSqrt(sqrt) && Dot(d, d) != 0.0
    ensures sqrt(Dot(d, d)) > 0.0
    ensures Dot(Normal(d, sqrt), Normal(d, sqrt)) == 1.0
    ensures d == Scale(Normal(d, sqrt), sqrt(Dot(d, d)))
  {
    SquaresNonNegative(d);
    var s := sqrt(Dot(d, d));
    var n := Normal(d, sqrt);
    assert s * s == Dot(d, d);
    assert s > 0.0;
    assert n.x * s == d.x && n.y * s == d.y;
    calc {
      Dot(n, n) * (s * s);
      (n.x * s) * (n.x * s) + (n.y * s) * (n.y * s);
      Dot(d, d);
      1.0 * (s * s);
    }
  }

  /** Projections on d (along and across) are those on the normal scaled by
      the length of d. */
  lemma OnNormal(u: Vec, d: Vec, sqrt: real -> real)
    requires IsSqrt(sqrt) && Dot(d, d) != 0.0
    ensures Dot(u, d) == sqrt(Dot(d, d)) * Dot(u, Normal(d, sqrt))
    ensures Cross(u, d) == sqrt(Dot(d, d)) * Cross(u, Normal(d, sqrt))
  {
    NormalFacts(d, sqrt);
    ScaleFacts(u, Normal(d, sqrt), sqrt(Dot(d, d)));
  }

  /** Relations between projections on the normal carry over to d. */
  lemma TransferToD(u: Vec, v: Vec, k: real, d: Vec, sqrt: real -> real)
    requires IsSqrt(sqrt) && Dot(d, d) != 0.0
    ensures Dot(u, Normal(d, sqrt)) == k * Dot(v, Normal(d, sqrt)) ==> Dot(u, d) == k * Dot(v, d)
    ensures Cross(u, Normal(d, sqrt)) == Cross(v, Normal(d, sqrt)) ==> Cross(u, d) == Cross(v, d)
  {
    OnNormal(u, d, sqrt);
    OnNormal(v, d, sqrt);
  }

  /** Equal-mass momentum conservation plus the reversal of the relative
      velocity along d swaps the components along d. */
  lemma SwapAlgebra(m: real, u0: Vec, u1: Vec, v0: Vec, v1: Vec, d: Vec)
    requires m != 0.0
    requires Add(Scale(u0, m), Scale(u1, m)) == Add(Scale(v0, m), Scale(v1, m))
    requires Dot(Sub(u1, u0), d) == -1.0 * Dot(Sub(v1, v0), d)
    ensures Dot(u0, d) == Dot(v1, d) && Dot(u1, d) == Dot(v0, d)
  {
    assert m * (u0.x + u1.x) == m * (v0.x + v1.x);
    assert m * (u0.y + u1.y) == m * (v0.y + v1.y);
    assert u0.x + u1.x == v0.x + v1.x && u0.y + u1.y == v0.y + v1.y;
    assert Dot(u0, d) + Dot(u1, d) == Dot(v0, d) + Dot(v1, d);
  }

  /** Moving two points apart by half a unit each along the unit vector n
      joining them lengthens their distance s by exactly one. */
  lemma SeparationAlgebra(pa: Vec, pb: Vec, n: Vec, s: real)
    requires Sub(pb, pa) == Scale(n, s) && Dot(n, n) == 1.0
    ensures var d' := Sub(Add(pb, Scale(n, PENETRATION * 0.5)), Add(pa, Scale(n, -PENETRATION * 0.5)));
      d' == Scale(n, s + PENETRATION) &&
      Cross(d', Scale(n, s)) == 0.0 && Dot(d', d') == (s + PENETRATION) * (s + PENETRATION) &&
      (s > 0.0 ==> Dot(d', Scale(n, s)) > 0.0)
  {
    var k := s + PENETRATION;
    ScaleFacts(Scale(n, k), n, s);
    ScaleFacts(n, n, k);
    assert Cross(Scale(n, k), n) == 0.0;
    assert Dot(Scale(n, k), Scale(n, k)) == k * (k * Dot(n, n));
    if s > 0.0 {
      assert Dot(Scale(n, k), Scale(n, s)) == s * k;
      assert s * k > 0.0;
    }
  }

  /** The impulse magnitude along the unit normal n: -(1 + min(eA, eB)) times
      the relative normal speed, over the inverse-mass sum. */
  function ImpulseOf(a: PhysicsObject, b: PhysicsObject, n: Vec): real
    requires a.mass != 0.0 && b.mass != 0.0 && 1.0 / a.mass + 1.0 / b.mass > 0.0
  {
    -(1.0 + Min(a.elasticity, b.elasticity)) * Dot(Sub(b.velocity, a.velocity), n) / (1.0 / a.mass + 1.0 / b.mass)
  }

  /** The resolved branch of a pair, for the unit normal n and the impulse
      magnitude j: the impulse j n taken from A and given to B, each scaled by
      the body's inverse mass, then a fixed separation of PENETRATION along n,
      half to each body. */
  function Exchange(a: PhysicsObject, b: PhysicsObject, n: Vec, j: real): (r: (PhysicsObject, PhysicsObject))
    requires a.mass != 0.0 && b.mass != 0.0
  {
    (a.(velocity := Sub(a.velocity, Scale(n, (1.0 / a.mass) * j)),
        shape := Move(a.shape, Scale(n, -PENETRATION * 0.5))),
     b.(velocity := Add(b.velocity, Scale(n, (1.0 / b.mass) * j)),
        shape := Move(b.shape, Scale(n, PENETRATION * 0.5))))
  }

  /** Shifting a vector along n does not change its component across n. */
  lemma CrossShift(v: Vec, n: Vec, k: real)
    ensures Cross(Sub(v, Scale(n, k)), n) == Cross(v, n)
    ensures Cross(Add(v, Scale(n, k)), n) == Cross(v, n)
  {
    assert (k * n.x) * n.y == (k * n.y) * n.x;
  }

  /** The relative velocity along a unit n after shifting A by -ka n and B
      by +kb n grows by ka + kb. */
  lemma ShiftAlong(va: Vec, vb: Vec, n: Vec, ka: real, kb: real)
    requires Dot(n, n) == 1.0
    ensures Dot(Sub(Add(vb, Scale(n, kb)), Sub(va, Scale(n, ka))), n) == Dot(Sub(vb, va), n) + ka + kb
  {
    assert (kb * n.x + ka * n.x) * n.x == (ka + kb) * (n.x * n.x);
    assert (kb * n.y + ka * n.y) * n.y == (ka + kb) * (n.y * n.y);
  }

  /** Shifting A by -j/mA n and B by +j/mB n keeps mA vA + mB vB. */
  lemma MomentumAlgebra(u0: Vec, u1: Vec, va: Vec, vb: Vec, n: Vec, ma: real, mb: real, j: real)
    requires ma != 0.0 && mb != 0.0
    requires u0 == Sub(va, Scale(n, (1.0 / ma) * j)) && u1 == Add(vb, Scale(n, (1.0 / mb) * j))
    ensures Add(Scale(u0, ma), Scale(u1, mb)) == Add(Scale(va, ma), Scale(vb, mb))
  {
    assert ma * ((1.0 / ma) * j) == j;
    assert mb * ((1.0 / mb) * j) == j;
    assert ma * (((1.0 / ma) * j) * n.x) == (ma * ((1.0 / ma) * j)) * n.x;
    assert mb * (((1.0 / mb) * j) * n.x) == (mb * ((1.0 / mb) * j)) * n.x;
    assert ma * (((1.0 / ma) * j) * n.y) == (ma * ((1.0 / ma) * j)) * n.y;
    assert mb * (((1.0 / mb) * j) * n.y) == (mb * ((1.0 / mb) * j)) * n.y;
  }

  /** Splitting x / (p + q) in the proportions p and q gives back x. */
  lemma ShareBack(x: real, p: real, q: real)
    requires p + q != 0.0
    ensures p * (x / (p + q)) + q * (x / (p + q)) == x
  {
    assert p * (x / (p + q)) + q * (x / (p + q)) == (p + q) * (x / (p + q));
  }

  /** An exchange moves the anchors PENETRATION/2 apart along n each, and
      keeps every body's material and shape dimensions. */
  lemma ExchangeShape(a: PhysicsObject, b: PhysicsObject, n: Vec, j: real)
    requires a.mass != 0.0 && b.mass != 0.0
    ensures var r := Exchange(a, b, n, j);
      Anchor(r.0) == Add(Anchor(a), Scale(n, -PENETRATION * 0.5)) &&
      Anchor(r.1) == Add(Anchor(b), Scale(n, PENETRATION * 0.5)) &&
      r.0.mass == a.mass && r.0.elasticity == a.elasticity && SameGeometry(r.0.shape, a.shape) &&
      r.1.mass == b.mass && r.1.elasticity == b.elasticity && SameGeometry(r.1.shape, b.shape)
  {
  }

  /** Momentum mA vA + mB vB is conserved by an exchange, whatever the impulse. */
  lemma ExchangeMomentum(a: PhysicsObject, b: PhysicsObject, n: Vec, j: real)
    requires a.mass != 0.0 && b.mass != 0.0
    ensures var r := Exchange(a, b, n, j);
      Add(Scale(r.0.velocity, a.mass), Scale(r.1.velocity, b.mass)) ==
      Add(Scale(a.velocity, a.mass), Scale(b.velocity, b.mass))
  {
    var r := Exchange(a, b, n, j);
    MomentumAlgebra(r.0.velocity, r.1.velocity, a.velocity, b.velocity, n, a.mass, b.mass, j);
  }

  /** An exchange changes no velocity across n. */
  lemma ExchangeTangent(a: PhysicsObject, b: PhysicsObject, n: Vec, j: real)
    requires a.mass != 0.0 && b.mass != 0.0
    ensures var r := Exchange(a, b, n, j);
      Cross(r.0.velocity, n) == Cross(a.velocity, n) && Cross(r.1.velocity, n) == Cross(b.velocity, n)
  {
    CrossShift(a.velocity, n, (1.0 / a.mass) * j);
    CrossShift(b.velocity, n, (1.0 / b.mass) * j);
  }

  /** The impulse of a pair, times the inverse-mass sum, is -(1 + min(eA, eB))
      times the relative speed along n. */
  lemma ImpulseBalance(a: PhysicsObject, b: PhysicsObject, n: Vec)
    requires a.mass != 0.0 && b.mass != 0.0 && 1.0 / a.mass + 1.0 / b.mass > 0.0
    ensures (1.0 / a.mass) * ImpulseOf(a, b, n) + (1.0 / b.mass) * ImpulseOf(a, b, n) ==
      -(1.0 + Min(a.elasticity, b.elasticity)) * Dot(Sub(b.velocity, a.velocity), n)
  {
    ShareBack(-(1.0 + Min(a.elasticity, b.elasticity)) * Dot(Sub(b.velocity, a.velocity), n), 1.0 / a.mass, 1.0 / b.mass);
  }

  /** For a unit n and an impulse j that balances the restitution law, the
      relative velocity along n after an exchange is -min(eA, eB) times the
      one before. */
  lemma ExchangeRestitution(a: PhysicsObject, b: PhysicsObject, n: Vec, j: real)
    requires a.mass != 0.0 && b.mass != 0.0 && Dot(n, n) == 1.0
    requires (1.0 / a.mass) * j + (1.0 / b.mass) * j ==
      -(1.0 + Min(a.elasticity, b.elasticity)) * Dot(Sub(b.velocity, a.velocity), n)
    ensures var r := Exchange(a, b, n, j);
      Dot(Sub(r.1.velocity, r.0.velocity), n) ==
      -Min(a.elasticity, b.elasticity) * Dot(Sub(b.velocity, a.velocity), n)
  {
    ShiftAlong(a.velocity, b.velocity, n, (1.0 / a.mass) * j, (1.0 / b.mass) * j);
  }

  /** The pair is resolved (rather than skipped) exactly when the bounding
      boxes overlap, the anchors differ, the bodies are not separating along
      the normal, and the inverse-mass sum is positive.  Stated without the
      square root: the sign of the normal relative speed is the sign of the
      projection on the anchor difference. */
  predicate Resolves(a: PhysicsObject, b: PhysicsObject)
    requires a.mass != 0.0 && b.mass != 0.0
  {
    var d := Sub(Anchor(b), Anchor(a));
    Intersects(Bounds(a.shape), Bounds(b.shape)) &&
    Dot(d, d) != 0.0 &&
    Dot(Sub(b.velocity, a.velocity), d) <= 0.0 &&
    1.0 / a.mass + 1.0 / b.mass > 0.0
  }

  /** One pair, A before B in store order: skipped when the bounding boxes do
      not overlap or when the anchors coincide (there is no normal);
      otherwise handled along the unit anchor-to-anchor normal. */
  function ResolvePair(a: PhysicsObject, b: PhysicsObject, sqrt: real -> real): (r: (PhysicsObject, PhysicsObject))
    requires a.mass != 0.0 && b.mass != 0.0 && IsSqrt(sqrt)
    ensures r.0.mass == a.mass && r.0.elasticity == a.elasticity && SameGeometry(r.0.shape, a.shape)
    ensures r.1.mass == b.mass && r.1.elasticity == b.elasticity && SameGeometry(r.1.shape, b.shape)
  {
    if !Intersects(Bounds(a.shape), Bounds(b.shape)) then (a, b)
    else
      var d := Sub(Anchor(b), Anchor(a));
      var dist2 := Dot(d, d);
      if dist2 == 0.0 then (a, b)
      else ResolveAlong(a, b, Normal(d, sqrt))
  }

  /** The rest of a pair, for the unit normal n: skipped when the bodies
      separate along n or the inverse-mass sum is not positive; otherwise an
      exchange. */
  function ResolveAlong(a: PhysicsObject, b: PhysicsObject, n: Vec): (r: (PhysicsObject, PhysicsObject))
    requires a.mass != 0.0 && b.mass != 0.0
    ensures r.0.mass == a.mass && r.0.elasticity == a.elasticity && SameGeometry(r.0.shape, a.shape)
    ensures r.1.mass == b.mass && r.1.elasticity == b.elasticity && SameGeometry(r.1.shape, b.shape)
  {
    var relVel := Dot(Sub(b.velocity, a.velocity), n);
    if relVel > 0.0 then (a, b)
    else if 1.0 / a.mass + 1.0 / b.mass <= 0.0 then (a, b)
    else
      ExchangeShape(a, b, n, ImpulseOf(a, b, n));
      Exchange(a, b, n, ImpulseOf(a, b, n))
  }

  /** A pair is left exactly as it was if and only if it is not resolved, and a
      resolved pair gets the exchange along the unit anchor-to-anchor normal. */
  lemma {:induction false} PairSkippedIff(a: PhysicsObject, b: PhysicsObject, sqrt: real -> real)
    requires a.mass != 0.0 && b.mass != 0.0 && IsSqrt(sqrt)
    ensures ResolvePair(a, b, sqrt) == (a, b) <==> !Resolves(a, b)
    ensures Resolves(a, b) ==>
      var d := Sub(Anchor(b), Anchor(a));
      var n := Normal(d, sqrt);
      ResolvePair(a, b, sqrt) == Exchange(a, b, n, ImpulseOf(a, b, n))
  {
    var d := Sub(Anchor(b), Anchor(a));
    if Intersects(Bounds(a.shape), Bounds(b.shape)) && Dot(d, d) != 0.0 {
      var n := Normal(d, sqrt);
      var rel := Sub(b.velocity, a.velocity);
      NormalFacts(d, sqrt);
      var s := sqrt(Dot(d, d));
      ScaleFacts(rel, n, s);
      assert Dot(rel, d) == s * Dot(rel, n);
      assert Dot(rel, d) > 0.0 <==> Dot(rel, n) > 0.0 by {
        if Dot(rel, n) > 0.0 { assert s * Dot(rel, n) > 0.0; }
        if Dot(rel, n) <= 0.0 { assert s * Dot(rel, n) <= 0.0; }
      }
      if Resolves(a, b) {
        var j := ImpulseOf(a, b, n);
        ExchangeShape(a, b, n, j);
        assert ResolvePair(a, b, sqrt) == Exchange(a, b, n, j);
        assert n != Vec(0.0, 0.0);
        assert Anchor(Exchange(a, b, n, j).0) != Anchor(a);
      }
    }
  }

  /** Every pair resolution conserves momentum mA vA + mB vB. */
  lemma {:induction false} PairMomentum(a: PhysicsObject, b: PhysicsObject, sqrt: real -> real)
    requires a.mass != 0.0 && b.mass != 0.0 && IsSqrt(sqrt)
    ensures var r := ResolvePair(a, b, sqrt);
      Add(Scale(r.0.velocity, a.mass), Scale(r.1.velocity, b.mass)) ==
      Add(Scale(a.velocity, a.mass), Scale(b.velocity, b.mass))
  {
    PairSkippedIff(a, b, sqrt);
    if Resolves(a, b) {
      var n := Normal(Sub(Anchor(b), Anchor(a)), sqrt);
      ExchangeMomentum(a, b, n, ImpulseOf(a, b, n));
    }
  }

  /** Every pair resolution changes the velocities only along the
      anchor-to-anchor direction d: their components across d are kept. */
  lemma {:induction false} PairAlongNormal(a: PhysicsObject, b: PhysicsObject, sqrt: real -> real)
    requires a.mass != 0.0 && b.mass != 0.0 && IsSqrt(sqrt)
    ensures var r := ResolvePair(a, b, sqrt); var d := Sub(Anchor(b), Anchor(a));
      Cross(r.0.velocity, d) == Cross(a.velocity, d) &&
      Cross(r.1.velocity, d) == Cross(b.velocity, d)
  {
    PairSkippedIff(a, b, sqrt);
    if Resolves(a, b) {
      var d := Sub(Anchor(b), Anchor(a));
      var n := Normal(d, sqrt);
      var j := ImpulseOf(a, b, n);
      var r := Exchange(a, b, n, j);
      ExchangeTangent(a, b, n, j);
      TransferToD(r.0.velocity, a.velocity, 1.0, d, sqrt);
      TransferToD(r.1.velocity, b.velocity, 1.0, d, sqrt);
    }
  }

  /** The restitution law of an exchange along the unit normal of d, for a
      balanced impulse j, stated on d itself. */
  lemma ExchangeRestitutionOnD(a: PhysicsObject, b: PhysicsObject, d: Vec, j: real, sqrt: real -> real)
    requires a.mass != 0.0 && b.mass != 0.0 && IsSqrt(sqrt) && Dot(d, d) != 0.0
    requires (1.0 / a.mass) * j + (1.0 / b.mass) * j ==
      -(1.0 + Min(a.elasticity, b.elasticity)) * Dot(Sub(b.velocity, a.velocity), Normal(d, sqrt))
    ensures var r := Exchange(a, b, Normal(d, sqrt), j);
      Dot(Sub(r.1.velocity, r.0.velocity), d) ==
      -Min(a.elasticity, b.elasticity) * Dot(Sub(b.velocity, a.velocity), d)
  {
    var n := Normal(d, sqrt);
    var r := Exchange(a, b, n, j);
    NormalFacts(d, sqrt);
    ExchangeRestitution(a, b, n, j);
    TransferToD(Sub(r.1.velocity, r.0.velocity), Sub(b.velocity, a.velocity), -Min(a.elasticity, b.elasticity), d, sqrt);
  }

  /** Restitution along the normal: for a resolved pair the relative velocity
      projected on d after the impulse is -min(eA, eB) times the one before. */
  lemma {:induction false} PairRestitution(a: PhysicsObject, b: PhysicsObject, sqrt: real -> real)
    requires a.mass != 0.0 && b.mass != 0.0 && IsSqrt(sqrt) && Resolves(a, b)
    ensures var r := ResolvePair(a, b, sqrt); var d := Sub(Anchor(b), Anchor(a));
      Dot(Sub(r.1.velocity, r.0.velocity), d) ==
      -Min(a.elasticity, b.elasticity) * Dot(Sub(b.velocity, a.velocity), d)
  {
    var d := Sub(Anchor(b), Anchor(a));
    assert Dot(d, d) != 0.0 && 1.0 / a.mass + 1.0 / b.mass > 0.0;
    var n := Normal(d, sqrt);
    assert ResolvePair(a, b, sqrt) == Exchange(a, b, n, ImpulseOf(a, b, n)) by {
      PairSkippedIff(a, b, sqrt);
    }
    ImpulseBalance(a, b, n);
    ExchangeRestitutionOnD(a, b, d, ImpulseOf(a, b, n), sqrt);
  }

  /** Two bodies of equal mass and elasticity 1 exchange the components of
      their velocities along d and keep their components across d. */
  lemma {:induction false} PairElasticEqualMassSwap(a: PhysicsObject, b: PhysicsObject, sqrt: real -> real)
    requires a.mass != 0.0 && b.mass != 0.0 && IsSqrt(sqrt) && Resolves(a, b)
    requires a.mass == b.mass && a.elasticity == 1.0 && b.elasticity == 1.0
    ensures var r := ResolvePair(a, b, sqrt); var d := Sub(Anchor(b), Anchor(a));
      Dot(r.0.velocity, d) == Dot(b.velocity, d) && Dot(r.1.velocity, d) == Dot(a.velocity, d) &&
      Cross(r.0.velocity, d) == Cross(a.velocity, d) && Cross(r.1.velocity, d) == Cross(b.velocity, d)
  {
    var r := ResolvePair(a, b, sqrt);
    var d := Sub(Anchor(b), Anchor(a));
    PairMomentum(a, b, sqrt);
    PairRestitution(a, b, sqrt);
    PairAlongNormal(a, b, sqrt);
    SwapAlgebra(a.mass, r.0.velocity, r.1.velocity, a.velocity, b.velocity, d);
  }

  /** A resolved pair ends with its anchors PENETRATION further apart, on the
      same line as before and in the same direction (B stays on A's side it
      was on). */
  lemma {:induction false} PairSeparation(a: PhysicsObject, b: PhysicsObject, sqrt: real -> real)
    requires a.mass != 0.0 && b.mass != 0.0 && IsSqrt(sqrt) && Resolves(a, b)
    ensures var r := ResolvePair(a, b, sqrt); var d := Sub(Anchor(b), Anchor(a));
      var d' := Sub(Anchor(r.1), Anchor(r.0));
      Cross(d', d) == 0.0 && Dot(d', d) > 0.0 &&
      Dot(d', d') == (sqrt(Dot(d, d)) + PENETRATION) * (sqrt(Dot(d, d)) + PENETRATION)
  {
    PairSkippedIff(a, b, sqrt);
    var d := Sub(Anchor(b), Anchor(a));
    var n := Normal(d, sqrt);
    var s := sqrt(Dot(d, d));
    var j := ImpulseOf(a, b, n);
    var r := Exchange(a, b, n, j);
    assert Anchor(r.0) == Add(Anchor(a), Scale(n, -PENETRATION * 0.5)) &&
           Anchor(r.1) == Add(Anchor(b), Scale(n, PENETRATION * 0.5)) by {
      ExchangeShape(a, b, n, j);
    }
    assert d == Scale(n, s) && Dot(n, n) == 1.0 && s > 0.0 by {
      NormalFacts(d, sqrt);
    }
    SeparationAlgebra(Anchor(a), Anchor(b), n, s);
  }

  // ---------------------------------------------------------------------
  // One frame: body i is advanced, then its pairs (i, j) for j > i are
  // resolved, before body i + 1 is advanced.
  // ---------------------------------------------------------------------

  predicate NonzeroMasses(s: seq<PhysicsObject>) {
    forall k :: 0 <= k < |s| ==> s[k].mass != 0.0
  }

  /** t holds the same bodies as s, each possibly moved and with a new
      velocity, but with the same mass, elasticity and shape dimensions. */
  predicate SameMaterial(s: seq<PhysicsObject>, t: seq<PhysicsObject>) {
    |s| == |t| &&
    forall k :: 0 <= k < |s| ==>
      t[k].mass == s[k].mass && t[k].elasticity == s[k].elasticity && SameGeometry(t[k].shape, s[k].shape)
  }

  /** Resolve the pairs (i, j), (i, j + 1), ... in that order.  Only body i
      and the bodies from j on can change. */
  function PairsFrom(s: seq<PhysicsObject>, i: nat, j: nat, sqrt: real -> real): (r: seq<PhysicsObject>)
    requires i < j <= |s| && NonzeroMasses(s) && IsSqrt(sqrt)
    ensures SameMaterial(s, r)
    ensures forall k :: 0 <= k < j && k != i ==> r[k] == s[k]
    decreases |s| - j
  {
    if j == |s| then s
    else
      var p := ResolvePair(s[i], s[j], sqrt);
      PairsFrom(s[i := p.0][j := p.1], i, j + 1, sqrt)
  }

  /** Process bodies i, i + 1, ... of one frame.  Bodies before i are final. */
  function BodiesFrom(s: seq<PhysicsObject>, i: nat, dt: real, groundY: real, friction: real, sqrt: real -> real)
    : (r: seq<PhysicsObject>)
    requires i <= |s| && NonzeroMasses(s) && IsSqrt(sqrt)
    ensures SameMaterial(s, r)
    ensures r[..i] == s[..i]
    decreases |s| - i
  {
    if i == |s| then s
    else
      var t := s[i := Advance(s[i], dt, groundY, friction)];
      AdvanceStep(s, i, dt, groundY, friction);
      var u := PairsFrom(t, i, i + 1, sqrt);
      var r := BodiesFrom(u, i + 1, dt, groundY, friction, sqrt);
      SameMaterialTrans(s, t, u);
      SameMaterialTrans(s, u, r);
      assert r[..i] == s[..i] by {
        assert r[..i + 1][..i] == r[..i] && u[..i + 1][..i] == u[..i];
      }
      r
  }

  lemma SameMaterialTrans(s: seq<PhysicsObject>, t: seq<PhysicsObject>, u: seq<PhysicsObject>)
    requires SameMaterial(s, t) && SameMaterial(t, u)
    ensures SameMaterial(s, u)
  {
    forall k | 0 <= k < |s|
      ensures u[k].mass == s[k].mass && u[k].elasticity == s[k].elasticity && SameGeometry(u[k].shape, s[k].shape)
    {
      match s[k].shape
      case CircleShape(_, _, _) =>
      case RectangleShape(_, _) =>
      case ConvexShape(_, _, _) =>
    }
  }

  /** One pass of the inner loop of a frame: resolve pair (i, j). */
  lemma PairsFromStep(s: seq<PhysicsObject>, i: nat, j: nat, sqrt: real -> real)
    requires i < j < |s| && NonzeroMasses(s) && IsSqrt(sqrt)
    ensures var p := ResolvePair(s[i], s[j], sqrt); var t := s[i := p.0][j := p.1];
      NonzeroMasses(t) && SameMaterial(s, t) && PairsFrom(t, i, j + 1, sqrt) == PairsFrom(s, i, j, sqrt)
  {
  }

  /** One pass of the outer loop of a frame, before its pairs: advance body i. */
  lemma AdvanceStep(s: seq<PhysicsObject>, i: nat, dt: real, groundY: real, friction: real)
    requires i < |s| && NonzeroMasses(s)
    ensures var t := s[i := Advance(s[i], dt, groundY, friction)];
      NonzeroMasses(t) && SameMaterial(s, t)
  {
  }

  /** One running frame over the whole store. */
  function Step(s: seq<PhysicsObject>, dt: real, groundY: real, friction: real, sqrt: real -> real)
    : (r: seq<PhysicsObject>)
    requires NonzeroMasses(s) && IsSqrt(sqrt)
    ensures SameMaterial(s, r)
  {
    BodiesFrom(s, 0, dt, groundY, friction, sqrt)
  }

  /** A lone body is integrated and ground-resolved, nothing else. */
  lemma StepOne(o: PhysicsObject, dt: real, groundY: real, friction: real, sqrt: real -> real)
    requires o.mass != 0.0 && IsSqrt(sqrt)
    ensures Step([o], dt, groundY, friction, sqrt) == [Advance(o, dt, groundY, friction)]
  {
    var t := [o][0 := Advance(o, dt, groundY, friction)];
    assert PairsFrom(t, 0, 1, sqrt) == t;
  }

  /** The interleaving of one frame, for two bodies: A is advanced, the pair
      is resolved while B still has its previous frame's state, and only
      then is B advanced. */
  lemma StepTwo(a: PhysicsObject, b: PhysicsObject, dt: real, groundY: real, friction: real, sqrt: real -> real)
    requires a.mass != 0.0 && b.mass != 0.0 && IsSqrt(sqrt)
    ensures var a1 := Advance(a, dt, groundY, friction);
      var p := ResolvePair(a1, b, sqrt);
      Step([a, b], dt, groundY, friction, sqrt) == [p.0, Advance(p.1, dt, groundY, friction)]
  {
    var a1 := Advance(a, dt, groundY, friction);
    var p := ResolvePair(a1, b, sqrt);
    var t0 := [a, b][0 := a1];
    assert t0 == [a1, b];
    assert t0[0 := p.0][1 := p.1] == [p.0, p.1];
    assert PairsFrom(t0, 0, 1, sqrt) == [p.0, p.1] by {
      assert PairsFrom(t0, 0, 1, sqrt) == PairsFrom([p.0, p.1], 0, 2, sqrt);
    }
    var t1 := [p.0, p.1][1 := Advance(p.1, dt, groundY, friction)];
    assert t1 == [p.0, Advance(p.1, dt, groundY, friction)];
    assert PairsFrom(t1, 1, 2, sqrt) == t1;
    calc {
      Step([a, b], dt, groundY, friction, sqrt);
      BodiesFrom([a, b], 0, dt, groundY, friction, sqrt);
      BodiesFrom(PairsFrom(t0, 0, 1, sqrt), 1, dt, groundY, friction, sqrt);
      BodiesFrom([p.0, p.1], 1, dt, groundY, friction, sqrt);
      BodiesFrom(PairsFrom(t1, 1, 2, sqrt), 2, dt, groundY, friction, sqrt);
      BodiesFrom(t1, 2, dt, groundY, friction, sqrt);
      t1;
    }
  }
}
