# Physics sandbox: body store and per-frame simulation

This project models the simulation core of the physics sandbox's `Objects`
class (`Physics_____Engine/Objects.cpp`) in Dafny and proves properties of it.

The state is a store of bodies. Each body has a shape (circle, rectangle or
isosceles triangle), a velocity, an elasticity and a mass. There is also one
ground-friction coefficient. The modelled operations are:

- one simulation frame (`update`). Each body in store order:
  - is integrated under gravity;
  - is pushed out of the ground and gets its rebound, friction and small-speed
    snap;
  - is immediately resolved against every later body by a one-dimensional
    impulse along the anchor-to-anchor normal, followed by a fixed separation.
  Pair (i, j) is thus resolved after body i has been integrated but before
  body j has.
- the editor handlers:
  - arming a shape kind;
  - starting a creation drag with a default body;
  - sizing the pending shape while dragging, clamped to the canvas;
  - appending the body on release;
  - the property popup's Apply and Delete;
  - the friction popup's Apply.

Modules:

- `Geometry` (`geometry.dfy`): vectors, boxes, the graphics library's
  `contains`/`intersects` tests, the three shapes, their bounding boxes and
  `move`.
- `Physics` (`physics.dfy`):
  - one body's integration and ground contact;
  - one pair's resolution;
  - the frame as the specification function `Step`, with the properties of
    each part.
- `Sizing` (`sizing.dfy`): the drag-sizing arithmetic of the creation drag.
- `Scene` (`scene.dfy`): the class `Objects`. Its fields are the store (a
  `seq`), the pending body and the editor state. Its methods update those
  fields in place. `Update` runs the source's nested loops and is proved equal
  to `Step`.

Floating-point numbers are modelled as reals, and the square root is a
parameter `sqrt` constrained by `IsSqrt`: it is non-negative and squares back
to its argument on non-negative inputs. Gravity is 9.81 * 50 = 490.5.

## Model

| member | source | states |
|---|---|---|
| `Geometry.Clamp` | Physics_____Engine/Objects.cpp:129 | `std::clamp` with lo <= hi: the result lies in [lo, hi]; it is the value itself when that is in range, otherwise the bound it crossed |
| `Geometry.Contains` | Physics_____Engine/Objects.cpp:66 | for a canvas of non-negative extent a point is inside exactly when it lies in [left, right) horizontally and [top, bottom) vertically: lower edges inside, upper edges outside |
| `Geometry.Intersects` | Physics_____Engine/Objects.cpp:246 | two boxes can overlap only when both have non-zero width and height; the plain form of the test and its symmetry are `Geometry.IntersectsPlain` |
| `Geometry.IntersectsPlain` | Physics_____Engine/Objects.cpp:246 | for boxes of non-negative extent the bounding-box overlap test is the strict interval overlap on both axes with positive extents, and it is symmetric |
| `Geometry.Bounds` | Physics_____Engine/Objects.cpp:229 | a rectangle's or triangle's global bounds start at its position with its own size; a circle's are a square of side twice the radius, centred on the position when the origin is (r, r) as after sizing |
| `Geometry.Move` | Physics_____Engine/Objects.cpp:227 | moving a shape shifts its anchor by d, keeps its kind and dimensions, and translates its bounding box by exactly d |
| `Physics.GroundY` | Physics_____Engine/Objects.cpp:220 | the ground line lies groundHeight above the canvas bottom, and within the canvas when 0 <= groundHeight <= height |
| `Physics.Snap` | Physics_____Engine/Objects.cpp:237-238 | a speed of magnitude below 1 becomes 0 and any other is kept, so the result is never faster than the input and is either 0 or at least 1 in magnitude |
| `Physics.Integrate` | Physics_____Engine/Objects.cpp:226-227 | gravity adds exactly GRAVITY*dt to the vertical velocity and leaves the horizontal one alone; anchor and bounding box move by exactly the new velocity times dt; mass, elasticity and dimensions are kept |
| `Physics.GroundContact` | Physics_____Engine/Objects.cpp:229-238 | a body reaching the ground ends with its bounding-box bottom exactly on the ground line and its left edge unchanged; a body above the ground is returned unchanged; the bottom never ends below the ground |
| `Physics.Advance` | Physics_____Engine/Objects.cpp:226-238 | after integration and ground contact the bounding-box bottom is at or above the ground line, and the material is kept |
| `Physics.GroundFriction` | Physics_____Engine/Objects.cpp:235-238 | on contact, friction 1 stops the horizontal motion; friction 0 keeps a horizontal speed of at least 1; friction in [0,1] never increases the horizontal speed |
| `Physics.GroundRestitution` | Physics_____Engine/Objects.cpp:234-237 | on contact the vertical velocity becomes -elasticity times the incoming one when that has magnitude at least 1, and exactly 0 when it is below 1; elasticity 0 stops vertical motion; a body moving down with elasticity in [0,1] leaves upward or at rest, no faster than it came |
| `Physics.Normal` | Physics_____Engine/Objects.cpp:250-255 | the normalised anchor difference times the distance gives back the difference; `Physics.NormalFacts` adds that it has length one |
| `Physics.NormalFacts` | Physics_____Engine/Objects.cpp:250-255 | for non-coincident anchors the distance is positive, the normal has length one and the anchor difference is the normal scaled by the distance |
| `Physics.ImpulseOf` | Physics_____Engine/Objects.cpp:262-266 | the impulse magnitude -(1 + min(eA, eB)) relVel / invMassSum; it has no contract of its own, `Physics.ImpulseBalance` states what it satisfies |
| `Physics.Exchange` | Physics_____Engine/Objects.cpp:266-274 | the resolved branch for a given impulse; it has no contract of its own, `Physics.ExchangeShape`, `Physics.ExchangeMomentum`, `Physics.ExchangeTangent` and `Physics.ExchangeRestitution` state what it does |
| `Physics.ExchangeShape` | Physics_____Engine/Objects.cpp:272-274 | an exchange moves A's anchor by -n/2 and B's by +n/2, and keeps both bodies' mass, elasticity and dimensions |
| `Physics.ExchangeMomentum` | Physics_____Engine/Objects.cpp:267-270 | applying an impulse j n, scaled by each inverse mass, conserves mA vA + mB vB for every j |
| `Physics.ExchangeTangent` | Physics_____Engine/Objects.cpp:267-270 | the impulse changes neither velocity's component across n |
| `Physics.ImpulseBalance` | Physics_____Engine/Objects.cpp:262-266 | the impulse magnitude times the inverse-mass sum is -(1 + min(eA, eB)) times the relative normal speed |
| `Physics.ExchangeRestitution` | Physics_____Engine/Objects.cpp:257-270 | for a unit n and a balanced impulse, the relative velocity along n afterwards is -min(eA, eB) times the one before |
| `Physics.ExchangeRestitutionOnD` | Physics_____Engine/Objects.cpp:250-270 | for the unit normal of d and a balanced impulse, the relative velocity along d itself afterwards is -min(eA, eB) times the one before |
| `Physics.ResolvePair` | Physics_____Engine/Objects.cpp:241-275 | resolving a pair keeps both bodies' mass, elasticity and shape dimensions |
| `Physics.ResolveAlong` | Physics_____Engine/Objects.cpp:257-274 | the normal-speed and inverse-mass checks followed by the exchange keep both bodies' mass, elasticity and shape dimensions |
| `Physics.PairSkippedIff` | Physics_____Engine/Objects.cpp:246-264 | a pair is left exactly as it was if and only if it is not resolved (no overlap, coincident anchors, separating along the anchor difference, or inverse-mass sum not positive); a resolved pair gets the exchange along the unit normal with the impulse of the formula |
| `Physics.PairMomentum` | Physics_____Engine/Objects.cpp:241-275 | every pair resolution, skipped or not, conserves mA vA + mB vB |
| `Physics.PairAlongNormal` | Physics_____Engine/Objects.cpp:250-270 | every pair resolution keeps both velocities' components across the anchor difference d |
| `Physics.PairRestitution` | Physics_____Engine/Objects.cpp:250-270 | for a resolved pair the relative velocity along d afterwards is -min(eA, eB) times the one before |
| `Physics.PairElasticEqualMassSwap` | Physics_____Engine/Objects.cpp:262-270 | two resolved bodies of equal mass and elasticity 1 swap their velocity components along d and keep those across d |
| `Physics.PairSeparation` | Physics_____Engine/Objects.cpp:272-274 | a resolved pair ends with its anchors on the same line as before, in the same direction (B stays on the side of A it was on), and exactly PENETRATION further apart |
| `Physics.PairsFrom` | Physics_____Engine/Objects.cpp:241-276 | resolving pairs (i, j), (i, j+1), ... keeps every body's material and leaves the bodies before j other than i untouched |
| `Physics.BodiesFrom` | Physics_____Engine/Objects.cpp:222-277 | processing bodies i, i+1, ... keeps every body's material and leaves the first i bodies as they were |
| `Physics.Step` | Physics_____Engine/Objects.cpp:220-277 | a running frame keeps every body's mass, elasticity and shape dimensions and the store's length |
| `Physics.StepOne` | Physics_____Engine/Objects.cpp:222-239 | a frame over a single body only integrates it and resolves it against the ground |
| `Physics.StepTwo` | Physics_____Engine/Objects.cpp:222-277 | a frame over two bodies advances A, resolves the pair while B still has last frame's state, and only then advances B |
| `Sizing.ClampToCanvas` | Physics_____Engine/Objects.cpp:129 | the clamped cursor lies on the canvas, a point already on the canvas (or inside it) is left unchanged, and on each axis separately no point of the canvas is nearer to the cursor |
| `Sizing.CircleRadius` | Physics_____Engine/Objects.cpp:136-138 | from a start point on the canvas the radius is non-negative and at most the distance to each canvas edge, so the circle centred there lies within the canvas; it never exceeds the requested radius (or 0), equals it when nothing caps it, and otherwise equals one of the four edge distances, so it is the largest radius that fits; a non-positive request gives 0 |
| `Sizing.DragRadius` | Physics_____Engine/Objects.cpp:136-138 | the dragged circle's radius is at most half the drag distance, and from a start on the canvas it is non-negative and the circle centred on the start lies within the canvas |
| `Sizing.DragAxis` | Physics_____Engine/Objects.cpp:147-152 | from a start in [lo, hi] the extent is non-negative and the span stays within [lo, hi]; with the cursor also in range it spans exactly from min(start, cursor) with extent abs(cursor - start) |
| `Sizing.DragBox` | Physics_____Engine/Objects.cpp:147-155 | from a start on the canvas the dragged box has non-negative size and lies within the canvas; with the cursor on the canvas it is exactly the box spanned by the two points |
| `Scene.NewObject` | Physics_____Engine/Objects.cpp:79-117 | a new body is of the chosen kind, at rest, with elasticity 0.5 and mass 1, and its bounding box starts at the press point |
| `Scene.Objects.constructor` | Physics_____Engine/Objects.cpp:7-9 | the store starts empty, with no pending body, nothing armed and the given friction |
| `Scene.Objects.StartCreatingObject` | Physics_____Engine/Objects.cpp:42-45 | choosing a kind arms it and cancels any creation drag |
| `Scene.Objects.HandleMousePress` | Physics_____Engine/Objects.cpp:47-118 | in edit mode, with no kind armed, or outside the canvas nothing changes; otherwise a creation drag starts at the press point with a default body of the armed kind and the canvas is recorded |
| `Scene.Objects.HandleMouseDrag` | Physics_____Engine/Objects.cpp:121-174 | during a creation drag only the pending shape changes, it stays of the armed kind and within the canvas; a circle is centred on the press point with the capped half-distance as radius; a rectangle or triangle spans from the press point to the clamped cursor |
| `Scene.Objects.HandleMouseRelease` | Physics_____Engine/Objects.cpp:176-183 | a pending body is appended to the end of the store; either way the creation drag ends and no kind stays armed |
| `Scene.Objects.ApplyProperties` | Physics_____Engine/Objects.cpp:328-342 | for an index in range, the body gets the velocity, the elasticity clamped to [0,1] and the mass raised to at least 0.01, and every other body is unchanged; an index past the end changes nothing |
| `Scene.Objects.DeleteObject` | Physics_____Engine/Objects.cpp:344-347 | for an index in range exactly that body is removed and the others keep their order; an index past the end changes nothing |
| `Scene.Objects.ApplyFriction` | Physics_____Engine/Objects.cpp:374-377 | the ground friction becomes the input clamped to [0,1] |
| `Scene.Objects.Update` | Physics_____Engine/Objects.cpp:218-278 | a paused frame changes nothing; a running frame turns the store into `Step` of the old store, over the ground line top + height - groundHeight; the editor's invariant (elasticities in [0,1], masses at least 0.01) is kept |
| `Scene.Objects.RunFrame` | Physics_____Engine/Objects.cpp:222-277 | the outer loop over the bodies computes `Step` of the store and keeps every body's material |
| `Scene.Objects.ResolveAgainstLater` | Physics_____Engine/Objects.cpp:241-276 | the inner loop resolves body i against every later body in store order, computing `PairsFrom` from i + 1 |

## Left out

- Floating-point rounding: all arithmetic is on reals. `std::sqrt` is an abstract square root passed as a parameter, and `std::abs` is exact.
- Outline thickness (3 pixels) is not part of the modelled bounding boxes, so contact and overlap tests use the bare shape extents.
- The edit-mode branch of the mouse press (friction popup at the ground, property popup on a body hit-test) only opens widgets. It is modelled as changing nothing.
- The speed/angle text parsing and trigonometry of the property popup: `ApplyProperties` receives the resulting velocity vector directly.
- `handleBoxClick`, the popup and widget construction, `draw`, path tracing and the range line are GUI and rendering code. So are `main` and the UI setup in `Physics_____Engine/UIUx.cpp`.
- `Physics_____Engine/ObjectProperties.cpp` (a popup with text parsing), `Physics_____Engine/Physics.hpp` (declarations only) and `Physics_____Engine/Ground.hpp` (a drawing wrapper).
- Null shape pointers: a body is only ever stored with a shape, so the `continue` guards for null shapes and the failing `dynamic_cast` branches are unreachable and not modelled.
- `Physics_____Engine/Objects.hpp` is an older revision without `elasticity`, `mass` and `groundFriction`, and the initial value of `groundFriction` is not part of this model. The constructor takes it as an argument in [0,1].
- `std::clamp` requires lo <= hi. Where the source clamps to the canvas, the model requires a canvas of non-negative width and height.
- Masses stay at or above 0.01 through the editor, so division by a zero mass is never modelled. The frame's requirement is only that masses are non-zero.
- `Physics.ResolvePair` and `Physics.ResolveAlong`: their own contracts only state what the pair keeps. The branch-by-branch behaviour is stated by `Physics.PairSkippedIff` and the other pair lemmas.
- `Physics.Exchange`: the impulse is written as n scaled by (1/m) times j, where the source scales the vector j n by 1/m. The two are equal over the reals.
