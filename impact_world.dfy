/** The canonical world (ImpactPhysicsEngine/Physics/PhysicsWorld.cs): global forces,
    integration, collision among the bodies that allow it, and clamping to the
    optional world bounds, in that order, once per Step. */
module ImpactWorld {
  import opened Vectors
  import opened PairOrder
  import opened ImpactBody
  import opened ImpactGravity
  import opened ImpactCollision

  // ---------------------------------------------------------------------------
  // Phase 1: every global force generator applied to every body

  /** The body after the generators fs were applied to it in list order. */
  function ApplyAll(b: Body, fs: seq<ForceGenerator>): (r: Body)
    ensures r == b.(forces := r.forces)
    decreases |fs|
  {
    if fs == [] then b else fs[|fs| - 1].AppliedTo(ApplyAll(b, fs[..|fs| - 1]))
  }

  /** The sum of the gravities G of the generators. */
  function TotalGravity(fs: seq<ForceGenerator>): Vec2
    decreases |fs|
  {
    if fs == [] then Zero else Add(TotalGravity(fs[..|fs| - 1]), fs[|fs| - 1].g)
  }

  /** The generators together give a movable body the acceleration of the sum of
      their gravities, and leave an immovable body alone. */
  lemma {:induction false} ApplyAllAccelerates(b: Body, fs: seq<ForceGenerator>)
    ensures b.InverseMass() == 0.0 ==> ApplyAll(b, fs) == b
    ensures b.InverseMass() != 0.0 ==>
              Scale(b.InverseMass(), ApplyAll(b, fs).forces)
              == Add(Scale(b.InverseMass(), b.forces), TotalGravity(fs))
    decreases |fs|
  {
    if fs != [] {
      var init := fs[..|fs| - 1];
      ApplyAllAccelerates(b, init);
      var before := ApplyAll(b, init);
      assert before.InverseMass() == b.InverseMass();
    }
  }

  function ForcePass(s: seq<Body>, fs: seq<ForceGenerator>): (r: seq<Body>)
    ensures |r| == |s|
  {
    seq(|s|, k requires 0 <= k < |s| => ApplyAll(s[k], fs))
  }

  // ---------------------------------------------------------------------------
  // Phase 2: every body integrated

  function IntegratePass(s: seq<Body>, dt: real): (r: seq<Body>)
    ensures |r| == |s|
  {
    seq(|s|, k requires 0 <= k < |s| => Integrated(s[k], dt))
  }

  // ---------------------------------------------------------------------------
  // Phase 3: collision among the bodies whose allowCollision is set

  /** The positions among the first n bodies that allow collision, in list order. */
  function CollidableUpTo(s: seq<Body>, n: nat): seq<nat>
    requires n <= |s|
  {
    if n == 0 then []
    else CollidableUpTo(s, n - 1) + (if s[n - 1].allowCollision then [n - 1] else [])
  }

  function Collidable(s: seq<Body>): seq<nat> {
    CollidableUpTo(s, |s|)
  }

  /** A list of positions below n, strictly increasing. */
  predicate IndexList(idx: seq<nat>, n: nat) {
    (forall m :: 0 <= m < |idx| ==> idx[m] < n) &&
    (forall a, b :: 0 <= a < b < |idx| ==> idx[a] < idx[b])
  }

  /** The filter keeps exactly the collidable positions, in increasing order. */
  lemma {:induction false} CollidableUpToExact(s: seq<Body>, n: nat)
    requires n <= |s|
    ensures IndexList(CollidableUpTo(s, n), n)
    ensures forall k :: 0 <= k < n ==> (k in CollidableUpTo(s, n) <==> s[k].allowCollision)
    ensures forall k :: k in CollidableUpTo(s, n) ==> k < n
  {
    if n > 0 {
      CollidableUpToExact(s, n - 1);
    }
  }

  lemma CollidableExact(s: seq<Body>)
    ensures IndexList(Collidable(s), |s|)
    ensures forall k :: 0 <= k < |s| ==> (k in Collidable(s) <==> s[k].allowCollision)
  {
    CollidableUpToExact(s, |s|);
  }

  /** The bodies at positions idx, in that order. */
  function Gather(s: seq<Body>, idx: seq<nat>): (r: seq<Body>)
    requires forall m :: 0 <= m < |idx| ==> idx[m] < |s|
    ensures |r| == |idx|
  {
    seq(|idx|, m requires 0 <= m < |idx| => s[idx[m]])
  }

  /** Picking the entries at increasing positions of a list without repeats gives
      a list without repeats, and none of the entries left behind is picked. */
  lemma SelectionDistinct<T>(xs: seq<T>, idx: seq<nat>, cs: seq<T>)
    requires IndexList(idx, |xs|) && |cs| == |idx|
    requires forall m :: 0 <= m < |cs| ==> cs[m] == xs[idx[m]]
    requires forall a, b :: 0 <= a < b < |xs| ==> xs[a] != xs[b]
    ensures forall a, b :: 0 <= a < b < |cs| ==> cs[a] != cs[b]
    ensures forall k :: 0 <= k < |xs| && k !in idx ==> xs[k] !in cs
  {
    forall a, b | 0 <= a < b < |cs| ensures cs[a] != cs[b] {
      assert idx[a] < idx[b];
    }
    forall k | 0 <= k < |xs| && k !in idx ensures xs[k] !in cs {
      forall m | 0 <= m < |cs| ensures cs[m] != xs[k] {
        assert idx[m] != k;
        if idx[m] < k { assert xs[idx[m]] != xs[k]; } else { assert xs[k] != xs[idx[m]]; }
      }
    }
  }

  /** s with the body at position idx[m] replaced by t[m], for every m. */
  function Scatter(s: seq<Body>, idx: seq<nat>, t: seq<Body>): (r: seq<Body>)
    requires |idx| == |t|
    ensures |r| == |s|
    decreases |idx|
  {
    if idx == [] then s
    else if idx[0] < |s| then Scatter(s[idx[0] := t[0]], idx[1..], t[1..])
    else Scatter(s, idx[1..], t[1..])
  }

  lemma {:induction false} ScatterOutside(s: seq<Body>, idx: seq<nat>, t: seq<Body>, k: nat)
    requires |idx| == |t| && k < |s| && k !in idx
    ensures Scatter(s, idx, t)[k] == s[k]
    decreases |idx|
  {
    if idx != [] {
      assert k !in idx[1..];
      if idx[0] < |s| {
        ScatterOutside(s[idx[0] := t[0]], idx[1..], t[1..], k);
      } else {
        ScatterOutside(s, idx[1..], t[1..], k);
      }
    }
  }

  lemma {:induction false} ScatterAt(s: seq<Body>, idx: seq<nat>, t: seq<Body>, m: nat)
    requires |idx| == |t| && IndexList(idx, |s|) && m < |idx|
    ensures Scatter(s, idx, t)[idx[m]] == t[m]
    decreases |idx|
  {
    var rest, rt := idx[1..], t[1..];
    assert IndexList(rest, |s|) by {
      forall a, b | 0 <= a < b < |rest| ensures rest[a] < rest[b] {
        assert rest[a] == idx[a + 1] && rest[b] == idx[b + 1];
      }
    }
    if m == 0 {
      assert idx[0] !in rest by {
        forall a | 0 <= a < |rest| ensures rest[a] != idx[0] {
          assert rest[a] == idx[a + 1];
        }
      }
      ScatterOutside(s[idx[0] := t[0]], rest, rt, idx[0]);
    } else {
      assert idx[m] == rest[m - 1] && t[m] == rt[m - 1];
      ScatterAt(s[idx[0] := t[0]], rest, rt, m - 1);
    }
  }

  /** A list that agrees with s outside idx and with t at idx is the scatter of t. */
  lemma ScatterBack(s: seq<Body>, idx: seq<nat>, t: seq<Body>, r: seq<Body>)
    requires IndexList(idx, |s|) && |t| == |idx| && |r| == |s|
    requires forall m :: 0 <= m < |idx| ==> r[idx[m]] == t[m]
    requires forall k :: 0 <= k < |s| && k !in idx ==> r[k] == s[k]
    ensures r == Scatter(s, idx, t)
  {
    forall k | 0 <= k < |s| ensures r[k] == Scatter(s, idx, t)[k] {
      if k in idx {
        var m :| 0 <= m < |idx| && idx[m] == k;
        ScatterAt(s, idx, t, m);
      } else {
        ScatterOutside(s, idx, t, k);
      }
    }
  }

  /** The collision phase: the handler runs on the collidable bodies, in list order. */
  function CollisionPass(s: seq<Body>): (r: seq<Body>)
    ensures |r| == |s|
  {
    var idx := Collidable(s);
    CollidableExact(s);
    Scatter(s, idx, Handled(Gather(s, idx)))
  }

  /** The collision phase changes nothing but positions and velocities, leaves
      every non-collidable body as it was and never moves an immovable body. */
  lemma CollisionPassKept(s: seq<Body>)
    ensures Kept(s, CollisionPass(s))
  {
    var idx := Collidable(s);
    CollidableExact(s);
    var g := Gather(s, idx);
    HandledKept(g);
    var r := CollisionPass(s);
    forall k | 0 <= k < |s|
      ensures r[k].SameBuild(s[k]) && r[k].forces == s[k].forces
      ensures !s[k].allowCollision ==> r[k] == s[k]
      ensures s[k].InverseMass() == 0.0 ==> r[k].position == s[k].position && r[k].velocity == s[k].velocity
    {
      if k in idx {
        var m :| 0 <= m < |idx| && idx[m] == k;
        ScatterAt(s, idx, Handled(g), m);
        assert g[m] == s[k];
      } else {
        ScatterOutside(s, idx, Handled(g), k);
      }
    }
  }

  // ---------------------------------------------------------------------------
  // Phase 4: clamping to the optional bounds

  /** The x or y component of an optional bound. */
  function XOf(o: Option<Vec2>): Option<real> {
    if o.Some? then Some(o.value.x) else None
  }

  function YOf(o: Option<Vec2>): Option<real> {
    if o.Some? then Some(o.value.y) else None
  }

  /** A coordinate lies within the optional bounds lo and hi. */
  predicate Within(p: real, lo: Option<real>, hi: Option<real>) {
    (lo.Some? ==> lo.value <= p) && (hi.Some? ==> p <= hi.value)
  }

  /** The bounds are not inverted (either may be absent). */
  predicate Ordered(lo: Option<real>, hi: Option<real>) {
    lo.Some? && hi.Some? ==> lo.value <= hi.value
  }

  /** One axis of the clamp: below the minimum the coordinate is set to it and the
      velocity reflected and scaled by the restitution e; then the same against the
      maximum. The result is (coordinate, velocity). */
  function ClampAxis(p: real, v: real, lo: Option<real>, hi: Option<real>, e: real): (r: (real, real))
    ensures Within(p, lo, hi) ==> r == (p, v)
    ensures Ordered(lo, hi) ==> Within(r.0, lo, hi)
    ensures Ordered(lo, hi) && lo.Some? && p < lo.value ==> r == (lo.value, Reflect(v, e))
    ensures Ordered(lo, hi) && hi.Some? && p > hi.value ==> r == (hi.value, Reflect(v, e))
    // with inverted bounds the maximum wins
    ensures !Ordered(lo, hi) ==> r.0 == hi.value
  {
    var below := lo.Some? && p < lo.value;
    var p1 := if below then lo.value else p;
    var v1 := if below then Reflect(v, e) else v;
    if hi.Some? && p1 > hi.value then (hi.value, Reflect(v1, e)) else (p1, v1)
  }

  /** The velocity component after a bounce: `-vel * Restitution`. */
  function Reflect(v: real, e: real): real {
    -v * e
  }

  /** Clamping reflects the velocity component scaled by the restitution: for
      0 <= e <= 1 the speed along the axis never grows. */
  lemma ClampNeverSpeedsUp(p: real, v: real, lo: Option<real>, hi: Option<real>, e: real)
    requires Ordered(lo, hi) && 0.0 <= e <= 1.0
    ensures Abs(ClampAxis(p, v, lo, hi, e).1) <= Abs(v)
  {
    var r := ClampAxis(p, v, lo, hi, e);
    if r.1 != v {
      assert r.1 == Reflect(v, e);
      ReflectShrinks(v, e);
    }
  }

  lemma ReflectShrinks(v: real, e: real)
    requires 0.0 <= e <= 1.0
    ensures Abs(Reflect(v, e)) <= Abs(v)
  {
    if v >= 0.0 {
      assert 0.0 <= v * e <= v;
      assert Reflect(v, e) == -(v * e);
    } else {
      assert 0.0 <= (-v) * e <= -v;
      assert Reflect(v, e) == (-v) * e;
    }
  }

  /** The body after the clamp; an immovable body is skipped. */
  function ClampBody(b: Body, minB: Option<Vec2>, maxB: Option<Vec2>): (r: Body)
    ensures r == b.(position := r.position, velocity := r.velocity)
    ensures b.InverseMass() == 0.0 ==> r == b
    ensures b.InverseMass() != 0.0 ==>
              (r.position.x, r.velocity.x) == ClampAxis(b.position.x, b.velocity.x, XOf(minB), XOf(maxB), b.restitution) &&
              (r.position.y, r.velocity.y) == ClampAxis(b.position.y, b.velocity.y, YOf(minB), YOf(maxB), b.restitution)
  {
    if b.InverseMass() == 0.0 then b
    else
      var x := ClampAxis(b.position.x, b.velocity.x, XOf(minB), XOf(maxB), b.restitution);
      var y := ClampAxis(b.position.y, b.velocity.y, YOf(minB), YOf(maxB), b.restitution);
      b.(position := Vec2(x.0, y.0), velocity := Vec2(x.1, y.1))
  }

  function ClampPass(s: seq<Body>, minB: Option<Vec2>, maxB: Option<Vec2>): (r: seq<Body>)
    ensures |r| == |s|
  {
    seq(|s|, k requires 0 <= k < |s| => ClampBody(s[k], minB, maxB))
  }

  /** The position lies within both optional bounds on both axes. */
  predicate InBounds(p: Vec2, minB: Option<Vec2>, maxB: Option<Vec2>) {
    Within(p.x, XOf(minB), XOf(maxB)) && Within(p.y, YOf(minB), YOf(maxB))
  }

  /** Neither axis of the bounds is inverted. */
  predicate BoundsOrdered(minB: Option<Vec2>, maxB: Option<Vec2>) {
    Ordered(XOf(minB), XOf(maxB)) && Ordered(YOf(minB), YOf(maxB))
  }

  // ---------------------------------------------------------------------------
  // The whole step

  /** The bodies after Step(dt). */
  function StepResult(s: seq<Body>, fs: seq<ForceGenerator>, dt: real,
                      minB: Option<Vec2>, maxB: Option<Vec2>): (r: seq<Body>)
    ensures |r| == |s|
  {
    ClampPass(CollisionPass(IntegratePass(ForcePass(s, fs), dt)), minB, maxB)
  }

  /** Step keeps every body's build and leaves every accumulator empty. */
  lemma StepKeepsBuild(s: seq<Body>, fs: seq<ForceGenerator>, dt: real,
                       minB: Option<Vec2>, maxB: Option<Vec2>)
    ensures forall k :: 0 <= k < |s| ==>
              StepResult(s, fs, dt, minB, maxB)[k].SameBuild(s[k]) &&
              StepResult(s, fs, dt, minB, maxB)[k].forces == Zero
  {
    var s2 := IntegratePass(ForcePass(s, fs), dt);
    CollisionPassKept(s2);
  }

  /** With bounds that are not inverted, every movable body ends the step within them. */
  lemma StepWithinBounds(s: seq<Body>, fs: seq<ForceGenerator>, dt: real,
                         minB: Option<Vec2>, maxB: Option<Vec2>, k: nat)
    requires BoundsOrdered(minB, maxB) && k < |s| && s[k].InverseMass() != 0.0
    ensures InBounds(StepResult(s, fs, dt, minB, maxB)[k].position, minB, maxB)
  {
    var s2 := IntegratePass(ForcePass(s, fs), dt);
    CollisionPassKept(s2);
  }

  /** An immovable body keeps its position and velocity through the whole step. */
  lemma StepImmovable(s: seq<Body>, fs: seq<ForceGenerator>, dt: real,
                      minB: Option<Vec2>, maxB: Option<Vec2>, k: nat)
    requires k < |s| && s[k].InverseMass() == 0.0
    ensures StepResult(s, fs, dt, minB, maxB)[k].position == s[k].position
    ensures StepResult(s, fs, dt, minB, maxB)[k].velocity == s[k].velocity
  {
    var s1 := ForcePass(s, fs);
    ApplyAllAccelerates(s[k], fs);
    assert s1[k] == s[k];
    var s2 := IntegratePass(s1, dt);
    assert s2[k].position == s[k].position && s2[k].velocity == s[k].velocity;
    assert s2[k].InverseMass() == 0.0;
    var s3 := CollisionPass(s2);
    CollisionPassKept(s2);
    assert s3[k].position == s[k].position && s3[k].velocity == s[k].velocity;
    assert s3[k].InverseMass() == 0.0;
    assert StepResult(s, fs, dt, minB, maxB)[k] == ClampBody(s3[k], minB, maxB);
  }

  /** A body that does not allow collision moves as if it were alone in the world. */
  lemma StepNonCollidable(s: seq<Body>, fs: seq<ForceGenerator>, dt: real,
                          minB: Option<Vec2>, maxB: Option<Vec2>, k: nat)
    requires k < |s| && !s[k].allowCollision
    ensures StepResult(s, fs, dt, minB, maxB)[k] == ClampBody(Integrated(ApplyAll(s[k], fs), dt), minB, maxB)
  {
    var s2 := IntegratePass(ForcePass(s, fs), dt);
    CollisionPassKept(s2);
  }

  /** Without bounds the clamp phase changes nothing. */
  lemma NoBoundsNoClamp(s: seq<Body>)
    ensures ClampPass(s, None, None) == s
  {
    forall k | 0 <= k < |s| ensures ClampPass(s, None, None)[k] == s[k] {
      var b := s[k];
      if b.InverseMass() != 0.0 {
        assert Within(b.position.x, None, None) && Within(b.position.y, None, None);
      }
    }
  }

  /** The bodies CollidableBodies selects have the states Gather picks, and, in a
      list without repeated bodies, they are distinct and include none of the others. */
  lemma SelectedBodies(bodies: seq<RigidBody>, cs: seq<RigidBody>)
    requires |cs| == |Collidable(Snapshot(bodies))|
    requires forall m :: 0 <= m < |cs| ==>
               Collidable(Snapshot(bodies))[m] < |bodies| && cs[m] == bodies[Collidable(Snapshot(bodies))[m]]
    ensures Snapshot(cs) == Gather(Snapshot(bodies), Collidable(Snapshot(bodies)))
    ensures Distinct(bodies) ==> Distinct(cs)
    ensures Distinct(bodies) ==>
              forall k :: 0 <= k < |bodies| && k !in Collidable(Snapshot(bodies)) ==> bodies[k] !in cs
  {
    var s := Snapshot(bodies);
    CollidableExact(s);
    if Distinct(bodies) {
      SelectionDistinct(bodies, Collidable(s), cs);
    }
  }

  /** Each selected body's state, read through the selection or through the list. */
  lemma SelectedStates(bs: seq<RigidBody>, cs: seq<RigidBody>, idx: seq<nat>)
    requires |cs| == |idx|
    requires forall m :: 0 <= m < |cs| ==> idx[m] < |bs| && cs[m] == bs[idx[m]]
    ensures forall m :: 0 <= m < |idx| ==> Snapshot(bs)[idx[m]] == Snapshot(cs)[m]
  {
    forall m | 0 <= m < |idx|
      ensures Snapshot(bs)[idx[m]] == Snapshot(cs)[m]
    {
      assert Snapshot(bs)[idx[m]] == bs[idx[m]].State();
    }
  }

  /** A list whose collidable entries are the handled ones, in order, and whose
      other entries are as before, is the result of the collision phase. */
  lemma Reassembled(s0: seq<Body>, idx: seq<nat>, hs: seq<Body>, after: seq<Body>)
    requires idx == Collidable(s0) && IndexList(idx, |s0|) && |after| == |s0|
    requires hs == Handled(Gather(s0, idx))
    requires forall m :: 0 <= m < |idx| ==> idx[m] < |after| && after[idx[m]] == hs[m]
    requires forall k :: 0 <= k < |s0| && k !in idx ==> after[k] == s0[k]
    ensures after == CollisionPass(s0)
  {
    ScatterBack(s0, idx, hs, after);
  }

  // ---------------------------------------------------------------------------
  // The world object

  class PhysicsWorld {
    var bodies: seq<RigidBody>
    var globalForces: seq<ForceGenerator>
    var minBounds: Option<Vec2>
    var maxBounds: Option<Vec2>

    constructor ()
      ensures bodies == [] && globalForces == [] && minBounds == None && maxBounds == None
    {
      bodies := [];
      globalForces := [];
      minBounds := None;
      maxBounds := None;
    }

    method AddBody(body: RigidBody)
      modifies this`bodies
      ensures bodies == old(bodies) + [body]
    {
      bodies := bodies + [body];
    }

    method AddGlobalForce(force: ForceGenerator)
      modifies this`globalForces
      ensures globalForces == old(globalForces) + [force]
    {
      globalForces := globalForces + [force];
    }

    /** Step(dt), for a body list without repeated bodies. */
    method Step(dt: real)
      requires Distinct(bodies)
      modifies bodies
      ensures Snapshot(bodies) == StepResult(old(Snapshot(bodies)), globalForces, dt, minBounds, maxBounds)
    {
      ApplyGlobalForces(dt);
      IntegrateBodies(dt);
      ResolveCollisions();
      ClampToBounds();
    }

    /** The first loop of Step: every generator applied to every body. */
    method ApplyGlobalForces(dt: real)
      requires Distinct(bodies)
      modifies bodies
      ensures Snapshot(bodies) == ForcePass(old(Snapshot(bodies)), globalForces)
    {
      ghost var s0 := Snapshot(bodies);
      var i := 0;
      while i < |bodies|
        invariant 0 <= i <= |bodies|
        invariant forall t :: 0 <= t < i ==> bodies[t].State() == ApplyAll(s0[t], globalForces)
        invariant forall t :: i <= t < |bodies| ==> bodies[t].State() == s0[t]
      {
        assert forall t :: 0 <= t < |bodies| && t != i ==> bodies[t] != bodies[i];
        ApplyForcesTo(bodies[i], dt);
        i := i + 1;
      }
    }

    /** The inner loop of the first loop of Step: every generator applied to one body. */
    method ApplyForcesTo(body: RigidBody, dt: real)
      modifies body
      ensures body.State() == ApplyAll(old(body.State()), globalForces)
    {
      ghost var b0 := body.State();
      var k := 0;
      while k < |globalForces|
        invariant 0 <= k <= |globalForces|
        invariant body.State() == ApplyAll(b0, globalForces[..k])
      {
        assert globalForces[..k + 1][..k] == globalForces[..k];
        globalForces[k].Apply(body, dt);
        k := k + 1;
      }
      assert globalForces[..|globalForces|] == globalForces;
    }

    /** The second loop of Step: every body integrated. */
    method IntegrateBodies(dt: real)
      requires Distinct(bodies)
      modifies bodies
      ensures Snapshot(bodies) == IntegratePass(old(Snapshot(bodies)), dt)
    {
      ghost var s0 := Snapshot(bodies);
      var i := 0;
      while i < |bodies|
        invariant 0 <= i <= |bodies|
        invariant forall t :: 0 <= t < i ==> bodies[t].State() == Integrated(s0[t], dt)
        invariant forall t :: i <= t < |bodies| ==> bodies[t].State() == s0[t]
      {
        assert forall t :: 0 <= t < |bodies| && t != i ==> bodies[t] != bodies[i];
        bodies[i].Integrate(dt);
        i := i + 1;
      }
    }

    /** The third loop of Step: the bodies that allow collision, in list order. */
    method CollidableBodies() returns (cs: seq<RigidBody>)
      ensures |cs| == |Collidable(Snapshot(bodies))|
      ensures forall m :: 0 <= m < |cs| ==>
                Collidable(Snapshot(bodies))[m] < |bodies| && cs[m] == bodies[Collidable(Snapshot(bodies))[m]]
    {
      ghost var s := Snapshot(bodies);
      ghost var idx: seq<nat> := [];
      cs := [];
      var i := 0;
      while i < |bodies|
        invariant 0 <= i <= |bodies|
        invariant idx == CollidableUpTo(s, i) && |cs| == |idx|
        invariant forall m :: 0 <= m < |cs| ==> idx[m] < i && cs[m] == bodies[idx[m]]
      {
        assert s[i] == bodies[i].State();
        if bodies[i].allowCollision {
          cs := cs + [bodies[i]];
          idx := idx + [i];
        }
        i := i + 1;
      }
    }

    /** The collision part of Step: the handler run on the collidable bodies. */
    method ResolveCollisions()
      requires Distinct(bodies)
      modifies bodies
      ensures Snapshot(bodies) == CollisionPass(old(Snapshot(bodies)))
    {
      ghost var bs := bodies;
      ghost var s0 := Snapshot(bs);
      ghost var idx := Collidable(s0);
      var cs := CollidableBodies();
      assert Snapshot(bs) == s0;
      SelectedBodies(bs, cs);
      ghost var picked := Snapshot(cs);
      assert picked == Gather(s0, idx);
      CollisionHandler(cs);
      ghost var hs := Snapshot(cs);
      assert hs == Handled(picked);
      SelectedStates(bs, cs, idx);
      CollidableExact(s0);
      forall k | 0 <= k < |s0| && k !in idx
        ensures Snapshot(bs)[k] == s0[k]
      {
        var o := bs[k];
        assert o !in cs;
        assert unchanged(o);
      }
      Reassembled(s0, idx, hs, Snapshot(bs));
    }

    /** The body of the last loop of Step. */
    method ClampBodyToBounds(body: RigidBody)
      modifies body
      ensures body.State() == ClampBody(old(body.State()), minBounds, maxBounds)
    {
      if body.InverseMass() == 0.0 {
        return;
      }
      var pos := body.position;
      var vel := body.velocity;
      if minBounds.Some? {
        var min := minBounds.value;
        if pos.x < min.x {
          pos := pos.(x := min.x);
          vel := vel.(x := Reflect(vel.x, body.restitution));
        }
        if pos.y < min.y {
          pos := pos.(y := min.y);
          vel := vel.(y := Reflect(vel.y, body.restitution));
        }
      }
      if maxBounds.Some? {
        var max := maxBounds.value;
        if pos.x > max.x {
          pos := pos.(x := max.x);
          vel := vel.(x := Reflect(vel.x, body.restitution));
        }
        if pos.y > max.y {
          pos := pos.(y := max.y);
          vel := vel.(y := Reflect(vel.y, body.restitution));
        }
      }
      body.position := pos;
      body.velocity := vel;
    }

    /** The last loop of Step: each movable body clamped to the bounds. */
    method ClampToBounds()
      requires Distinct(bodies)
      modifies bodies
      ensures Snapshot(bodies) == ClampPass(old(Snapshot(bodies)), minBounds, maxBounds)
    {
      ghost var s0 := Snapshot(bodies);
      var i := 0;
      while i < |bodies|
        invariant 0 <= i <= |bodies|
        invariant forall t :: 0 <= t < i ==> bodies[t].State() == ClampBody(s0[t], minBounds, maxBounds)
        invariant forall t :: i <= t < |bodies| ==> bodies[t].State() == s0[t]
      {
        assert forall t :: 0 <= t < |bodies| && t != i ==> bodies[t] != bodies[i];
        ClampBodyToBounds(bodies[i]);
        i := i + 1;
      }
    }
  }
}
