/** An optional value: `None` stands for a shape pointer that is null. */
module Wrappers {
  datatype Option<T> = None | Some(value: T)
}

/** The body store of the sandbox and the editor handlers that create, edit
    and delete bodies, together with the per-frame update over the store. */
module Scene {
  import opened Geometry
  import opened Physics
  import opened Sizing
  import Wrappers

  /** The kind of shape chosen in the shape menu, if any. */
  datatype ObjectType = None | Circle | Rectangle | Triangle

  const DEFAULT_ELASTICITY: real := 0.5
  const DEFAULT_MASS: real := 1.0
  /** The smallest mass the property editor accepts. */
  const MIN_MASS: real := 0.01

  /** The editor's clamps keep every body's elasticity in [0,1] and its mass
      at least MIN_MASS. */
  predicate Admissible(o: PhysicsObject) {
    0.0 <= o.elasticity <= 1.0 && o.mass >= MIN_MASS
  }

  /** The shape is of the kind `t` names. */
  predicate Matches(t: ObjectType, s: Shape) {
    match t
    case None => false
    case Circle => s.CircleShape?
    case Rectangle => s.RectangleShape?
    case Triangle => s.ConvexShape?
  }

  /** The body created by a press at `at`: a unit-sized shape of kind `t`
      whose bounding box starts at `at`, at rest, with the default elasticity
      and mass. */
  function NewObject(t: ObjectType, at: Vec): (o: PhysicsObject)
    requires t != None
    ensures Admissible(o) && Matches(t, o.shape)
    ensures o.velocity == Vec(0.0, 0.0) && o.elasticity == DEFAULT_ELASTICITY && o.mass == DEFAULT_MASS
    ensures Bounds(o.shape).left == at.x && Bounds(o.shape).top == at.y
  {
    var shape := match t
      case Circle => CircleShape(at, Vec(0.0, 0.0), 1.0)
      case Rectangle => RectangleShape(at, Vec(1.0, 1.0))
      case Triangle => ConvexShape(at, 1.0, 1.0);
    PhysicsObject(shape, Vec(0.0, 0.0), DEFAULT_ELASTICITY, DEFAULT_MASS)
  }

  class Objects {
    /** The simulated bodies, in insertion order (also the pair order). */
    var objects: seq<PhysicsObject>
    /** The body being created; None once it has been moved into the store. */
    var tempObject: Wrappers.Option<PhysicsObject>
    var creatingObject: bool
    var pendingType: ObjectType
    /** Where the creation drag started (clamped to the canvas). */
    var startPos: Vec
    /** The canvas at the time the creation drag started. */
    var currentCanvasRect: Box
    /** The tangential damping applied at every ground contact. */
    var groundFriction: real

    ghost predicate Valid()
      reads this
    {
      && 0.0 <= groundFriction <= 1.0
      && (forall k :: 0 <= k < |objects| ==> Admissible(objects[k]))
      && (tempObject.Some? ==> Admissible(tempObject.value))
      && (creatingObject ==>
            && tempObject.Some?
            && Matches(pendingType, tempObject.value.shape)
            && currentCanvasRect.width >= 0.0 && currentCanvasRect.height >= 0.0
            && OnCanvas(currentCanvasRect, startPos))
    }

    constructor (friction: real)
      requires 0.0 <= friction <= 1.0
      ensures Valid()
      ensures objects == [] && tempObject == Wrappers.None
      ensures !creatingObject && pendingType == None && groundFriction == friction
    {
      objects := [];
      tempObject := Wrappers.None;
      creatingObject := false;
      pendingType := None;
      startPos := Vec(0.0, 0.0);
      currentCanvasRect := Box(0.0, 0.0, 0.0, 0.0);
      groundFriction := friction;
    }

    /** Choosing a shape in the menu arms creation without starting it. */
    method StartCreatingObject(t: ObjectType)
      requires Valid()
      modifies this`pendingType, this`creatingObject
      ensures Valid()
      ensures pendingType == t && !creatingObject
    {
      pendingType := t;
      creatingObject := false;
    }

    /** A press outside edit mode, inside the canvas, with a shape chosen,
        starts a creation drag with a unit-sized default body at the press
        point.  In edit mode a press only opens a property popup, and any
        other press does nothing. */
    method HandleMousePress(pos: Vec, canvas: Box, editMode: bool)
      requires Valid()
      requires canvas.width >= 0.0 && canvas.height >= 0.0
      modifies this`creatingObject, this`currentCanvasRect, this`startPos, this`tempObject
      ensures Valid()
      ensures editMode || pendingType == None || !Contains(canvas, pos) ==>
        creatingObject == old(creatingObject) && currentCanvasRect == old(currentCanvasRect) &&
        startPos == old(startPos) && tempObject == old(tempObject)
      ensures !editMode && pendingType != None && Contains(canvas, pos) ==>
        && creatingObject
        && currentCanvasRect == canvas
        && startPos == pos
        && tempObject == Wrappers.Some(NewObject(pendingType, pos))
    {
      if editMode {
        return;
      }
      if pendingType == None || !Contains(canvas, pos) {
        return;
      }
      creatingObject := true;
      currentCanvasRect := canvas;
      startPos := ClampToCanvas(canvas, pos);
      tempObject := Wrappers.Some(NewObject(pendingType, startPos));
    }

    /** While a creation drag is in progress, size the pending shape from the
        press point to the cursor clamped to the canvas: a circle centred on
        the press point, or a rectangle or triangle spanning from the press
        point to the cursor.  The shape always stays within the canvas. */
    method HandleMouseDrag(pos: Vec, sqrt: real -> real)
      requires Valid() && IsSqrt(sqrt)
      modifies this`tempObject
      ensures Valid()
      ensures !creatingObject ==> tempObject == old(tempObject)
      ensures creatingObject ==>
        && tempObject.Some?
        && tempObject.value == old(tempObject.value).(shape := tempObject.value.shape)
        && Matches(pendingType, tempObject.value.shape)
        && Within(Bounds(tempObject.value.shape), currentCanvasRect)
      ensures creatingObject && pendingType == Circle ==>
        var r := DragRadius(startPos, ClampToCanvas(currentCanvasRect, pos), currentCanvasRect, sqrt);
        tempObject.value.shape == CircleShape(startPos, Vec(r, r), r)
      ensures creatingObject && pendingType != Circle ==>
        var cursor := ClampToCanvas(currentCanvasRect, pos);
        Bounds(tempObject.value.shape) ==
          Box(Min(startPos.x, cursor.x), Min(startPos.y, cursor.y), Abs(cursor.x - startPos.x), Abs(cursor.y - startPos.y))
    {
      if !creatingObject || tempObject.None? {
        return;
      }
      var canvas := currentCanvasRect;
      var cursor := ClampToCanvas(canvas, pos);
      var obj := tempObject.value;
      if pendingType == Circle {
        var r := DragRadius(startPos, cursor, canvas, sqrt);
        tempObject := Wrappers.Some(obj.(shape := CircleShape(startPos, Vec(r, r), r)));
      } else if pendingType == Rectangle {
        var b := DragBox(startPos, cursor, canvas);
        tempObject := Wrappers.Some(obj.(shape := RectangleShape(Vec(b.left, b.top), Vec(b.width, b.height))));
      } else {
        // pendingType is Triangle: a creation drag never runs without a shape kind.
        var b := DragBox(startPos, cursor, canvas);
        tempObject := Wrappers.Some(obj.(shape := ConvexShape(Vec(b.left, b.top), b.width, b.height)));
      }
    }

    /** Releasing the mouse appends the pending body to the store if a
        creation drag was in progress, and always disarms creation. */
    method HandleMouseRelease()
      requires Valid()
      modifies this`objects, this`creatingObject, this`pendingType, this`tempObject
      ensures Valid()
      ensures old(creatingObject && tempObject.Some?) ==>
        objects == old(objects) + [old(tempObject.value)] && tempObject == Wrappers.None
      ensures !old(creatingObject && tempObject.Some?) ==>
        objects == old(objects) && tempObject == old(tempObject)
      ensures !creatingObject && pendingType == None
    {
      if creatingObject && tempObject.Some? {
        objects := objects + [tempObject.value];
        tempObject := Wrappers.None;
      }
      creatingObject := false;
      pendingType := None;
    }

    /** The property popup's Apply: set the velocity (computed by the popup
        from speed and angle), the elasticity clamped to [0,1] and the mass
        raised to at least MIN_MASS, of the body at `index`; an index past the
        end changes nothing. */
    method ApplyProperties(index: nat, velocity: Vec, elasticity: real, mass: real)
      requires Valid()
      modifies this`objects
      ensures Valid()
      ensures index >= |old(objects)| ==> objects == old(objects)
      ensures index < |old(objects)| ==>
        && |objects| == |old(objects)|
        && objects[index].shape == old(objects[index].shape)
        && objects[index].velocity == velocity
        && objects[index].elasticity == Clamp(elasticity, 0.0, 1.0)
        && objects[index].mass == Max(MIN_MASS, mass)
        && forall k :: 0 <= k < |objects| && k != index ==> objects[k] == old(objects[k])
    {
      if index >= |objects| {
        return;
      }
      var e := Clamp(elasticity, 0.0, 1.0);
      var m := Max(MIN_MASS, mass);
      objects := objects[index := objects[index].(velocity := velocity, elasticity := e, mass := m)];
    }

    /** The property popup's Delete: remove the body at `index`, keeping the
        order of the others; an index past the end changes nothing. */
    method DeleteObject(index: nat)
      requires Valid()
      modifies this`objects
      ensures Valid()
      ensures index >= |old(objects)| ==> objects == old(objects)
      ensures index < |old(objects)| ==>
        && |objects| == |old(objects)| - 1
        && (forall k :: 0 <= k < index ==> objects[k] == old(objects[k]))
        && (forall k :: index <= k < |objects| ==> objects[k] == old(objects[k + 1]))
    {
      if index < |objects| {
        objects := objects[..index] + objects[index + 1..];
      }
    }

    /** The friction popup's Apply: the ground friction becomes the input
        clamped to [0,1]. */
    method ApplyFriction(friction: real)
      requires Valid()
      modifies this`groundFriction
      ensures Valid()
      ensures groundFriction == Clamp(friction, 0.0, 1.0)
    {
      groundFriction := Clamp(friction, 0.0, 1.0);
    }

    /** One frame.  When paused nothing changes.  When running, each body in
        store order is integrated and resolved against the ground, and then
        immediately resolved against every later body, before the next body
        is integrated. */
    method Update(dt: real, isRunning: bool, canvasRect: Box, groundHeight: real, sqrt: real -> real)
      requires Valid() && IsSqrt(sqrt)
      modifies this`objects
      ensures Valid()
      ensures !isRunning ==> objects == old(objects)
      ensures isRunning ==>
        NonzeroMasses(old(objects)) &&
        objects == Step(old(objects), dt, GroundY(canvasRect, groundHeight), groundFriction, sqrt)
    {
      if !isRunning {
        return;
      }
      RunFrame(dt, canvasRect.top + canvasRect.height - groundHeight, sqrt);
    }

    /** The outer loop of a running frame, over the bodies in store order. */
    method RunFrame(dt: real, groundY: real, sqrt: real -> real)
      requires NonzeroMasses(objects) && IsSqrt(sqrt)
      modifies this`objects
      ensures objects == Step(old(objects), dt, groundY, groundFriction, sqrt)
      ensures SameMaterial(old(objects), objects)
    {
      ghost var target := Step(objects, dt, groundY, groundFriction, sqrt);
      var i := 0;
      while i < |objects|
        invariant i <= |objects|
        invariant SameMaterial(old(objects), objects)
        invariant NonzeroMasses(objects)
        invariant BodiesFrom(objects, i, dt, groundY, groundFriction, sqrt) == target
      {
        ghost var before := objects;
        AdvanceStep(objects, i, dt, groundY, groundFriction);
        objects := objects[i := Advance(objects[i], dt, groundY, groundFriction)];
        SameMaterialTrans(old(objects), before, objects);
        before := objects;
        ResolveAgainstLater(i, sqrt);
        SameMaterialTrans(old(objects), before, objects);
        i := i + 1;
      }
    }

    /** The inner loop of a frame: resolve body i against every later body,
        in store order. */
    method ResolveAgainstLater(i: nat, sqrt: real -> real)
      requires i < |objects| && NonzeroMasses(objects) && IsSqrt(sqrt)
      modifies this`objects
      ensures objects == PairsFrom(old(objects), i, i + 1, sqrt)
      ensures SameMaterial(old(objects), objects) && NonzeroMasses(objects)
    {
      var j := i + 1;
      while j < |objects|
        invariant i < j <= |objects|
        invariant SameMaterial(old(objects), objects)
        invariant NonzeroMasses(objects)
        invariant PairsFrom(objects, i, j, sqrt) == PairsFrom(old(objects), i, i + 1, sqrt)
      {
        ghost var current := objects;
        PairsFromStep(objects, i, j, sqrt);
        var p := ResolvePair(objects[i], objects[j], sqrt);
        objects := objects[i := p.0][j := p.1];
        SameMaterialTrans(old(objects), current, objects);
        j := j + 1;
      }
    }
  }
}
