# A verified model of a small 2-D rigid-body engine

This project models the physics core of a C# physics engine. The core has two
generations:

- **ImpactPhysicsEngine**, the canonical engine:
  - a `RigidBody` with a force accumulator, an inverse-mass property and
    semi-implicit Euler integration;
  - a `Gravity` force generator;
  - an axis-aligned box `Collision` (an all-pairs handler, an overlap test, and
    resolution by a normal impulse plus slop-and-percent positional correction);
  - a `PhysicsWorld` whose `Step` runs forces, integration, collision among the
    bodies that allow it, and clamping to optional bounds, in that order.
- **testingPE**, the earlier variant:
  - a `RigidBody` drawn as a circle of `RenderRadius`, whose `Integrate` moves the
    position by the acceleration;
  - a `LinearDrag` generator;
  - a circle `Collision` whose `DetectCollision` also pushes overlapping circles
    apart, and whose `ResolveCollision` writes nothing.

Modules:

- `Vectors`: `Vector2` as a pair of reals, plus `Option` for `Vector2?`.
- `PairOrder`: the visiting order of the nested pair loops both handlers share.
- `ImpactBody`, `ImpactGravity`, `ImpactCollision`, `ImpactWorld`: the canonical engine.
- `TestingBody`, `TestingDrag`, `TestingCollision`: the testingPE variant.

Each body is described twice:

- as a value: the `Body` datatypes, with specification functions
  `Integrated`, `Resolved`, `Detected`, `StepResult` and so on;
- as a mutable `class RigidBody`, whose methods are proved to change the state
  exactly as the matching function says.

The list-level methods (`CollisionHandler`, `PhysicsWorld.Step`) are proved
against functions on the list of body states (`Snapshot`). The properties are
lemmas about those functions.

Modelling choices:

- `float` is `real`.
- A mass is `Finite(m)` or `Infinite` (`float.PositiveInfinity`).
- `MathF.Sqrt` is a parameter `sqrt` of the testingPE collision code. The
  predicate `IsSqrt` constrains it to return a non-negative root of every
  non-negative argument.

## Model

| member | source | states |
|---|---|---|
| ImpactBody.InverseMassOf | ImpactPhysicsEngine/Physics/RigidBody.cs:25 | The inverse mass is never negative. It is zero exactly when the mass is infinite or not positive. |
| ImpactBody.MassForInverse | ImpactPhysicsEngine/Physics/RigidBody.cs:26-30 | The setter stores an infinite mass exactly when the value is not positive. Reading the inverse mass back yields max(v, 0). |
| ImpactBody.MassRoundTrip | ImpactPhysicsEngine/Physics/RigidBody.cs:23-31 | Getter then setter restores a positive finite mass and an infinite mass. A non-positive finite mass comes back as infinite. |
| ImpactBody.InverseTimesMass | ImpactPhysicsEngine/Physics/RigidBody.cs:25 | A positive finite mass times its inverse mass is 1. |
| ImpactBody.DampingFactor | ImpactPhysicsEngine/Physics/RigidBody.cs:53 | max(0, 1 - damping*dt) is never negative. It is 0 once damping*dt >= 1, at most 1 when damping*dt >= 0, and 1 - damping*dt otherwise. |
| ImpactBody.Integrated | ImpactPhysicsEngine/Physics/RigidBody.cs:43-59 | Integrate clears the accumulator and changes only position and velocity. An immovable body keeps both. Otherwise v' = factor*(v + F*invMass*dt) and p' = p + v'*dt, using the updated velocity. |
| ImpactBody.DampingNeverReverses | ImpactPhysicsEngine/Physics/RigidBody.cs:51-53 | The damped velocity never points against the undamped one. It is zero when damping*dt >= 1. |
| ImpactBody.FreeBodyDrifts | ImpactPhysicsEngine/Physics/RigidBody.cs:51-56 | Without force or damping a movable body keeps its velocity and moves by v*dt. |
| ImpactBody.RunAccumulates | ImpactPhysicsEngine/Physics/RigidBody.cs:39-58 | Over n frames of AddForce(F) then Integrate, with no damping, every frame adds the same F*invMass*dt to the velocity. The accumulator is empty after each frame. |
| ImpactBody.ConstantForceVelocity | ImpactPhysicsEngine/Physics/RigidBody.cs:51-53 | A body starting at rest has velocity n*(dt*F*invMass) after n undamped frames under a constant force. |
| ImpactBody.FramesClosedForm | ImpactPhysicsEngine/Physics/RigidBody.cs:52 | An increment added n times equals n times the increment. |
| ImpactBody.RigidBody.constructor | ImpactPhysicsEngine/Physics/RigidBody.cs:12-37 | A new body has zero velocity and an empty accumulator, Restitution 1, LinearDamping 0 and allowCollision true. Position, mass, width and height are as given. |
| ImpactBody.RigidBody.SetInverseMass | ImpactPhysicsEngine/Physics/RigidBody.cs:26-30 | Setting v <= 0 makes the mass infinite. Setting v > 0 makes the getter return v. |
| ImpactBody.RigidBody.AddForce | ImpactPhysicsEngine/Physics/RigidBody.cs:39 | The force is added to the accumulator and nothing else changes. |
| ImpactBody.RigidBody.ClearForces | ImpactPhysicsEngine/Physics/RigidBody.cs:41 | The accumulator becomes zero. |
| ImpactBody.RigidBody.Integrate | ImpactPhysicsEngine/Physics/RigidBody.cs:43-59 | The new state is Integrated of the old state. |
| ImpactGravity.ForceGenerator.AppliedTo | ImpactPhysicsEngine/Physics/SharedLaws/Gravity.cs:16-21 | Apply changes only the accumulator. An immovable body is left alone. Any other body receives exactly G*Mass, which adds exactly G to its acceleration. |
| ImpactGravity.ForceGenerator.Apply | ImpactPhysicsEngine/Physics/SharedLaws/Gravity.cs:16-21 | The new body state is AppliedTo of the old one, and dt plays no part. |
| ImpactGravity.AccelerationIndependentOfMass | ImpactPhysicsEngine/Physics/SharedLaws/Gravity.cs:20 | For a force-free undamped body of any mass, gravity then Integrate changes the velocity by exactly G*dt. |
| ImpactGravity.ImmovableUnderGravity | ImpactPhysicsEngine/Physics/SharedLaws/Gravity.cs:18-19 | An immovable body keeps position and velocity through gravity and integration. |
| ImpactCollision.DetectCollision | ImpactPhysicsEngine/Physics/SharedLaws/Collision.cs:30-41 | The test is true exactly when the two boxes' closed extents meet on both axes, so touching boxes are detected. |
| ImpactCollision.DetectSymmetric | ImpactPhysicsEngine/Physics/SharedLaws/Collision.cs:30-41 | Swapping the two bodies does not change the test. |
| ImpactCollision.ContactOf | ImpactPhysicsEngine/Physics/SharedLaws/Collision.cs:53-75 | There is no contact exactly when an overlap is <= 0. Otherwise the penetration is the smaller overlap and the normal is an axis unit vector: X exactly when overlapX < overlapY (a tie goes to Y), pointing towards the second body. |
| ImpactCollision.ResolvedVelocities | ImpactPhysicsEngine/Physics/SharedLaws/Collision.cs:83-96 | Velocities change only when the bodies approach along the normal, and then by equal and opposite impulses weighted by inverse mass. A body with inverse mass 0 keeps its velocity. |
| ImpactCollision.ImpulseShared | ImpactPhysicsEngine/Physics/SharedLaws/Collision.cs:87-90 | j times invMassSum is -(1 + min restitution) times the normal velocity. |
| ImpactCollision.RestitutionLaw | ImpactPhysicsEngine/Physics/SharedLaws/Collision.cs:83-96 | After an approaching contact the relative normal velocity is -min(e1, e2) times the old one. |
| ImpactCollision.MomentumConserved | ImpactPhysicsEngine/Physics/SharedLaws/Collision.cs:92-95 | The impulse step conserves linear momentum for two bodies of finite positive mass. |
| ImpactCollision.EqualMassElasticSwap | ImpactPhysicsEngine/Physics/SharedLaws/Collision.cs:83-96 | Equal inverse masses with restitution 1 exchange the normal components of the two velocities. |
| ImpactCollision.CorrectionMagnitude | ImpactPhysicsEngine/Physics/SharedLaws/Collision.cs:98-101 | The correction magnitude is never negative, and it is zero when the penetration is within the slop 0.01. |
| ImpactCollision.CorrectionShared | ImpactPhysicsEngine/Physics/SharedLaws/Collision.cs:101 | The magnitude times invMassSum is 0.8*max(p - 0.01, 0). |
| ImpactCollision.CorrectedPositions | ImpactPhysicsEngine/Physics/SharedLaws/Collision.cs:98-105 | Penetration within the slop moves nothing. A body with inverse mass 0 is not moved, and the axis off the normal is untouched. |
| ImpactCollision.CorrectionSeparates | ImpactPhysicsEngine/Physics/SharedLaws/Collision.cs:101-105 | The correction increases the centre offset by 0.8*max(p - 0.01, 0) along the normal. |
| ImpactCollision.CorrectionKeepsCentreOfMass | ImpactPhysicsEngine/Physics/SharedLaws/Collision.cs:101-105 | The correction keeps the centre of mass of two finite bodies in place. |
| ImpactCollision.Resolved | ImpactPhysicsEngine/Physics/SharedLaws/Collision.cs:43-106 | ResolveCollision changes only positions and velocities. It changes nothing when either body is non-collidable, the boxes only touch or are apart, or both are immovable. Otherwise it applies the impulse step and then the correction. |
| ImpactCollision.ResolveCollision | ImpactPhysicsEngine/Physics/SharedLaws/Collision.cs:43-106 | The new states of two distinct bodies are Resolved of the old ones. The same body passed twice is left unchanged. |
| ImpactCollision.ApplyImpulse | ImpactPhysicsEngine/Physics/SharedLaws/Collision.cs:83-96 | The new velocities are ResolvedVelocities of the old states. |
| ImpactCollision.CorrectPositions | ImpactPhysicsEngine/Physics/SharedLaws/Collision.cs:98-105 | The new positions are CorrectedPositions of the old states. |
| ImpactCollision.HandledKept | ImpactPhysicsEngine/Physics/SharedLaws/Collision.cs:10-28 | The handler keeps every body's build and accumulator. It never changes a non-collidable body and never moves an immovable one. |
| ImpactCollision.RowOfNonCollidable | ImpactPhysicsEngine/Physics/SharedLaws/Collision.cs:14-15 | Skipping the row of a non-collidable outer body drops exactly the pairs that would have changed nothing. |
| ImpactCollision.VisitPairOf | ImpactPhysicsEngine/Physics/SharedLaws/Collision.cs:16-25 | One inner-loop turn resolves (i, j) exactly when both bodies collide and are detected. No other body changes. |
| ImpactCollision.CollisionHandler | ImpactPhysicsEngine/Physics/SharedLaws/Collision.cs:10-28 | The list after the nested loops is the pairs of AllPairs visited in order. |
| PairOrder.AllPairsExactlyOnce | ImpactPhysicsEngine/Physics/SharedLaws/Collision.cs:12-16 | The loops visit exactly the pairs i < j < Count, in lexicographic order, each once. Hence i == j never happens. |
| PairOrder.RowContents | ImpactPhysicsEngine/Physics/SharedLaws/Collision.cs:16 | The inner loop from j visits (i, j), (i, j+1), ..., (i, Count-1). |
| PairOrder.PairsFromContents | ImpactPhysicsEngine/Physics/SharedLaws/Collision.cs:12-16 | From outer index i on, the loops visit exactly the pairs i <= a < b < Count, in increasing order. |
| ImpactWorld.ApplyAll | ImpactPhysicsEngine/Physics/PhysicsWorld.cs:28-31 | Applying the generators in list order changes only the accumulator. |
| ImpactWorld.ApplyAllAccelerates | ImpactPhysicsEngine/Physics/PhysicsWorld.cs:26-32 | The generators together add the sum of their G to a movable body's acceleration. They leave an immovable body alone. |
| ImpactWorld.CollidableExact | ImpactPhysicsEngine/Physics/PhysicsWorld.cs:39-45 | The filter yields increasing list positions, and exactly those of the bodies with allowCollision set. |
| ImpactWorld.CollisionPassKept | ImpactPhysicsEngine/Physics/PhysicsWorld.cs:39-47 | The collision phase keeps builds and accumulators. It never changes a non-collidable body and never moves an immovable one. |
| ImpactWorld.ClampAxis | ImpactPhysicsEngine/Physics/PhysicsWorld.cs:57-85 | A coordinate within the bounds keeps coordinate and velocity. One past a bound is set to it and gets velocity -v*e. With ordered bounds the result lies within them, and with inverted ones the maximum wins. |
| ImpactWorld.ClampNeverSpeedsUp | ImpactPhysicsEngine/Physics/PhysicsWorld.cs:63-83 | For restitution in [0, 1] clamping never increases the speed along an axis. |
| ImpactWorld.ReflectShrinks | ImpactPhysicsEngine/Physics/PhysicsWorld.cs:63 | \|-v*e\| <= \|v\| for e in [0, 1]. |
| ImpactWorld.ClampBody | ImpactPhysicsEngine/Physics/PhysicsWorld.cs:49-88 | An immovable body is skipped. Otherwise each axis is clamped independently, and only position and velocity change. |
| ImpactWorld.StepKeepsBuild | ImpactPhysicsEngine/Physics/PhysicsWorld.cs:23-90 | Step keeps the body count, every body's build, and an empty accumulator for every body. |
| ImpactWorld.StepWithinBounds | ImpactPhysicsEngine/Physics/PhysicsWorld.cs:49-88 | With bounds that are not inverted, every movable body ends Step within them. |
| ImpactWorld.StepImmovable | ImpactPhysicsEngine/Physics/PhysicsWorld.cs:23-90 | An immovable body keeps position and velocity through the whole of Step. |
| ImpactWorld.StepNonCollidable | ImpactPhysicsEngine/Physics/PhysicsWorld.cs:39-47 | A non-collidable body ends Step as if it were alone: forces, Integrate, clamp. |
| ImpactWorld.NoBoundsNoClamp | ImpactPhysicsEngine/Physics/PhysicsWorld.cs:57-88 | With both bounds absent the clamp phase changes nothing. |
| ImpactWorld.SelectedBodies | ImpactPhysicsEngine/Physics/PhysicsWorld.cs:39-47 | The selected objects have the gathered states. In a list without repeats they are distinct and miss every non-selected body. |
| ImpactWorld.PhysicsWorld.constructor | ImpactPhysicsEngine/Physics/PhysicsWorld.cs:13-17 | A new world has no bodies, no forces and no bounds. |
| ImpactWorld.PhysicsWorld.AddBody | ImpactPhysicsEngine/Physics/PhysicsWorld.cs:19 | The body is appended, and the earlier bodies keep their order. |
| ImpactWorld.PhysicsWorld.AddGlobalForce | ImpactPhysicsEngine/Physics/PhysicsWorld.cs:21 | The generator is appended, and the earlier generators keep their order. |
| ImpactWorld.PhysicsWorld.Step | ImpactPhysicsEngine/Physics/PhysicsWorld.cs:23-90 | The body states after Step are StepResult of those before: the four phases in order, over the same bodies and forces. |
| ImpactWorld.PhysicsWorld.ApplyGlobalForces | ImpactPhysicsEngine/Physics/PhysicsWorld.cs:26-32 | Every body receives every generator, in list order, before any integration. |
| ImpactWorld.PhysicsWorld.ApplyForcesTo | ImpactPhysicsEngine/Physics/PhysicsWorld.cs:28-31 | One body receives the generators in list order. |
| ImpactWorld.PhysicsWorld.IntegrateBodies | ImpactPhysicsEngine/Physics/PhysicsWorld.cs:34-37 | Every body is integrated once. |
| ImpactWorld.PhysicsWorld.CollidableBodies | ImpactPhysicsEngine/Physics/PhysicsWorld.cs:39-45 | The list built is the subsequence of Bodies with allowCollision set, in original order. |
| ImpactWorld.PhysicsWorld.ResolveCollisions | ImpactPhysicsEngine/Physics/PhysicsWorld.cs:46-47 | The handler on that subsequence changes the world's bodies exactly as CollisionPass says. |
| ImpactWorld.PhysicsWorld.ClampBodyToBounds | ImpactPhysicsEngine/Physics/PhysicsWorld.cs:51-88 | The new body state is ClampBody of the old one. |
| ImpactWorld.PhysicsWorld.ClampToBounds | ImpactPhysicsEngine/Physics/PhysicsWorld.cs:49-89 | Every body is clamped once. |
| TestingBody.Integrated | testingPE/Physics/RigidBody.cs:34-49 | Integrate clears the accumulator. An immovable body keeps position and velocity. A movable body moves by acceleration*dt, not by its velocity. |
| TestingBody.AgreesOnVelocity | testingPE/Physics/RigidBody.cs:42-44 | The new velocity is the canonical engine's, and so is the new position of an immovable body. |
| TestingBody.IntegrateIgnoresVelocity | testingPE/Physics/RigidBody.cs:46 | With an empty accumulator the position does not change, whatever the velocity. |
| TestingBody.StationaryDespiteVelocity | testingPE/Physics/RigidBody.cs:46 | A unit-mass body at velocity (1, 0) stays at the origin for dt = 1, where the canonical Integrate moves it to (1, 0). |
| TestingBody.RigidBody.constructor | testingPE/Physics/RigidBody.cs:12-28 | A new body has RenderRadius 16, Restitution 0.1 and LinearDamping 0. Velocity, size and accumulator are zero, and position and mass are as given. |
| TestingBody.RigidBody.AddForce | testingPE/Physics/RigidBody.cs:30 | The force is added to the accumulator. |
| TestingBody.RigidBody.ClearForces | testingPE/Physics/RigidBody.cs:32 | The accumulator becomes zero. |
| TestingBody.RigidBody.Integrate | testingPE/Physics/RigidBody.cs:34-49 | The new state is Integrated of the old state. |
| TestingDrag.LinearDrag.AppliedTo | testingPE/Physics/SharedLaws/LinearDrag.cs:15-22 | Apply changes only the accumulator. An immovable body is left alone. Any other body receives exactly -Coefficient*Width*Height*Velocity. |
| TestingDrag.LinearDrag.Apply | testingPE/Physics/SharedLaws/LinearDrag.cs:15-22 | The new body state is AppliedTo of the old one, and dt plays no part. |
| TestingDrag.NoDragWithoutMotion | testingPE/Physics/SharedLaws/LinearDrag.cs:19-21 | Zero velocity, coefficient or area gives a zero force. |
| TestingDrag.DragOpposesMotion | testingPE/Physics/SharedLaws/LinearDrag.cs:19-21 | With non-negative coefficient and area the force has a non-positive dot product with the velocity. It is negative for positive ones and a moving body. |
| TestingDrag.DragThenIntegrate | testingPE/Physics/SharedLaws/LinearDrag.cs:19-21 | Drag then one undamped Integrate scales the velocity by 1 - c*area*invMass*dt. |
| TestingCollision.InContactSymmetric | testingPE/Physics/SharedLaws/Collision.cs:29-37 | The circle test does not depend on the order of the bodies. |
| TestingCollision.Direction | testingPE/Physics/SharedLaws/Collision.cs:38-43 | Coincident centres fall back to (1, 0) with squared distance 1. Otherwise the offset is kept. Either way the squared distance is positive and equals dx*dx + dy*dy. |
| TestingCollision.Distance | testingPE/Physics/SharedLaws/Collision.cs:45 | The distance is positive and its square is the squared distance, so the division that follows is defined. |
| TestingCollision.DetectInverseMass | testingPE/Physics/SharedLaws/Collision.cs:51-52 | The inline rule `Mass > 0 ? 1/Mass : 0` agrees with the InverseMass property. |
| TestingCollision.CorrectionMagnitude | testingPE/Physics/SharedLaws/Collision.cs:60 | The magnitude is never negative, and it is zero within the slop 0.01. |
| TestingCollision.CorrectionShared | testingPE/Physics/SharedLaws/Collision.cs:60 | The magnitude times invMassSum is 0.8*max(p - 0.01, 0). |
| TestingCollision.Corrected | testingPE/Physics/SharedLaws/Collision.cs:60-64 | Penetration within the slop moves nothing, and a body with inverse mass 0 is not moved. |
| TestingCollision.Detected | testingPE/Physics/SharedLaws/Collision.cs:27-68 | The result is true exactly when dx^2 + dy^2 <= (r1 + r2)^2. Only positions change, and only when the circles are in contact, overlap, and are not both immovable. |
| TestingCollision.NormalIsUnit | testingPE/Physics/SharedLaws/Collision.cs:50 | The normal is a unit vector. |
| TestingCollision.TouchingCirclesStay | testingPE/Physics/SharedLaws/Collision.cs:36-48 | Exactly touching circles are detected but not moved. |
| TestingCollision.CoincidentCentres | testingPE/Physics/SharedLaws/Collision.cs:38-45 | Coincident centres are detected, with distance 1 and normal (1, 0). |
| TestingCollision.DetectionSeparates | testingPE/Physics/SharedLaws/Collision.cs:60-64 | The correction increases the centre offset by 0.8*max(p - 0.01, 0) along the normal. |
| TestingCollision.DetectionKeepsCentreOfMass | testingPE/Physics/SharedLaws/Collision.cs:60-64 | Detection keeps the centre of mass of two finite bodies in place. |
| TestingCollision.DetectCollision | testingPE/Physics/SharedLaws/Collision.cs:27-68 | Result and new states of two distinct bodies are Detected of the old ones. The same body twice is detected and left in place. |
| TestingCollision.ResolveCollision | testingPE/Physics/SharedLaws/Collision.cs:70-95 | Neither body changes. |
| TestingCollision.HandledKept | testingPE/Physics/SharedLaws/Collision.cs:10-25 | The handler changes no velocity or other field except positions, and never moves an immovable body. |
| TestingCollision.ApartBodiesUntouched | testingPE/Physics/SharedLaws/Collision.cs:10-25 | A list of pairwise separated circles is left unchanged. |
| TestingCollision.VisitPairOf | testingPE/Physics/SharedLaws/Collision.cs:14-22 | One inner-loop turn applies detection to (i, j), with no allowCollision filter. No other body changes. |
| TestingCollision.CollisionHandler | testingPE/Physics/SharedLaws/Collision.cs:10-25 | The list after the nested loops is the pairs of AllPairs visited in order. |

## Left out

- The WinForms game, editor and Pong layer are not part of this model: controls, painting, input, the timer loop, random spawning.
- `SceneObject.cs` and the interfaces `IRigidBody.cs` and `IForceGenerator.cs` have no behaviour. Each engine's body class stands for its interface. `ImpactGravity.ForceGenerator` is a datatype whose only case is `Gravity`.
- ImpactPhysicsEngine's own `LinearDrag.cs` is not part of this model. The drag modelled is testingPE's.
- IEEE-754 floats are modelled as exact reals: there is no rounding and no NaN.
  - A mass of `float.NegativeInfinity` is represented by a negative finite mass. Both have inverse mass 0 in the source and in the model.
  - Setting `InverseMass = +Infinity` cannot be expressed, because reals are finite.
- `MathF.Sqrt` is the parameter `sqrt`, constrained by `IsSqrt`. Rounding of the root is not modelled.
- `Console.WriteLine("Collision detected")` in testingPE's handler is output with no effect on state, and is left out.
- The unreachable `if (i == j) continue` in both handlers is dropped. `PairOrder.AllPairsExactlyOnce` shows that j > i always holds at that point.
- Setting `Gravity.G` or `LinearDrag.Coefficient` between steps is modelled as replacing the generator value.
- ImpactCollision.CollisionHandler: requires a list in which no object appears twice. An aliased list is not modelled at list level; a single object passed as both arguments is handled by `ResolveCollision`.
- TestingCollision.CollisionHandler: requires a list without repeated objects, for the same reason.
- ImpactWorld.PhysicsWorld.Step: requires `Bodies` to hold no object twice, for the same reason. The same holds for its phase methods `ApplyGlobalForces`, `IntegrateBodies`, `ResolveCollisions` and `ClampToBounds`.
- TestingCollision.DetectCollision: the property `RenderRadius` that this code reads is missing from testingPE's `IRigidBody`. The model reads it from the body (`radius`), as the concrete `RigidBody` provides it.
- TestingCollision.ResolveCollision: the locals it computes are evaluated, as in the source, but have no effect, so its contract states only that nothing changes.

## Findings

| source | as written | input that shows it | evidently intended | confidence | as-written member | corrected member |
|---|---|---|---|---|---|---|
| testingPE/Physics/RigidBody.cs:46 | `Position += acceleration * dt`: the position advances by the acceleration, so velocity never moves a body | unit mass, velocity (1, 0), no force, dt = 1: the position stays (0, 0) | advance by the updated velocity, `Position += Velocity * dt`, as the later engine does (semi-implicit Euler, ImpactPhysicsEngine/Physics/RigidBody.cs:56) | high; not executed | TestingBody.StationaryDespiteVelocity | ImpactBody.FreeBodyDrifts |
