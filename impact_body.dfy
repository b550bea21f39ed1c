/** The canonical rigid body (ImpactPhysicsEngine/Physics/RigidBody.cs): mass and
    inverse mass, the force accumulator and semi-implicit Euler integration. */
module ImpactBody {
  import opened Vectors

  /** A body's mass: a finite value, or float.PositiveInfinity for an immovable body. */
  datatype Mass = Finite(value: real) | Infinite

  /** The InverseMass getter: 0 for a non-positive or infinite mass, 1 / Mass otherwise. */
  function InverseMassOf(m: Mass): (r: real)
    ensures r >= 0.0
    ensures r == 0.0 <==> m.Infinite? || m.value <= 0.0
  {
    if m.Infinite? || m.value <= 0.0 then 0.0 else 1.0 / m.value
  }

  /** A positive finite mass times its inverse mass is 1. */
  lemma InverseTimesMass(m: Mass)
    requires m.Finite? && m.value > 0.0
    ensures InverseMassOf(m) * m.value == 1.0
  {
  }

  /** The mass the InverseMass setter stores for the value v. */
  function MassForInverse(v: real): (m: Mass)
    ensures m.Infinite? <==> v <= 0.0
    ensures InverseMassOf(m) == Max(v, 0.0)
  {
    if v <= 0.0 then Infinite else Finite(1.0 / v)
  }

  /** A positive finite mass and an infinite mass survive a round trip through the
      inverse mass; a non-positive finite mass comes back as an infinite one. */
  lemma MassRoundTrip(m: Mass)
    ensures MassForInverse(InverseMassOf(m)) == if m.Finite? && m.value > 0.0 then m else Infinite
  {
    if m.Finite? && m.value > 0.0 {
      var inv := InverseMassOf(m);
      InverseTimesMass(m);
      assert 1.0 / inv == m.value;
    }
  }

  /** The state of one body as a value: the fields of RigidBody, with the private
      accumulator `_accumulateedForces` as `forces`. */
  datatype Body = Body(position: Vec2, velocity: Vec2, mass: Mass, width: real, height: real,
                       restitution: real, damping: real, allowCollision: bool, forces: Vec2)
  {
    function InverseMass(): real {
      InverseMassOf(mass)
    }

    /** The fields that neither forces, integration, collision nor clamping change. */
    predicate SameBuild(other: Body) {
      mass == other.mass && width == other.width && height == other.height &&
      restitution == other.restitution && damping == other.damping &&
      allowCollision == other.allowCollision
    }
  }

  /** The factor MathF.Max(0, 1 - LinearDamping * dt) that scales the velocity. */
  function DampingFactor(damping: real, dt: real): (k: real)
    ensures k >= 0.0
    ensures damping * dt >= 1.0 ==> k == 0.0
    ensures damping * dt >= 0.0 ==> k <= 1.0
    ensures damping * dt <= 1.0 ==> k + damping * dt == 1.0
  {
    Max(0.0, 1.0 - damping * dt)
  }

  /** The velocity before damping: v + (F * InverseMass) * dt. */
  function Undamped(b: Body, dt: real): Vec2 {
    Add(b.velocity, Scale(dt, Scale(b.InverseMass(), b.forces)))
  }

  /** The body after Integrate(dt). */
  function Integrated(b: Body, dt: real): (r: Body)
    ensures r.forces == Zero
    ensures r.SameBuild(b)
    ensures b.InverseMass() <= 0.0 ==> r.position == b.position && r.velocity == b.velocity
    ensures b.InverseMass() > 0.0 ==> r.velocity == Scale(DampingFactor(b.damping, dt), Undamped(b, dt))
    ensures b.InverseMass() > 0.0 ==> r.position == Add(b.position, Scale(dt, r.velocity))
  {
    if b.InverseMass() <= 0.0 then
      b.(forces := Zero)
    else
      var acceleration := Scale(b.InverseMass(), b.forces);
      var v := Scale(DampingFactor(b.damping, dt), Add(b.velocity, Scale(dt, acceleration)));
      b.(velocity := v, position := Add(b.position, Scale(dt, v)), forces := Zero)
  }

  /** Damping never reverses the velocity: the new velocity is a non-negative
      multiple of the undamped one, and it is zero once damping * dt >= 1. */
  lemma DampingNeverReverses(b: Body, dt: real)
    requires b.InverseMass() > 0.0
    ensures Dot(Integrated(b, dt).velocity, Undamped(b, dt)) >= 0.0
    ensures b.damping * dt >= 1.0 ==> Integrated(b, dt).velocity == Zero
  {
    var u := Undamped(b, dt);
    var k := DampingFactor(b.damping, dt);
    assert Integrated(b, dt).velocity == Scale(k, u);
    ScaledAlongItself(k, u);
  }

  lemma ScaledAlongItself(k: real, u: Vec2)
    requires k >= 0.0
    ensures Dot(Scale(k, u), u) >= 0.0
    ensures k == 0.0 ==> Scale(k, u) == Zero
  {
    assert Dot(Scale(k, u), u) == k * Dot(u, u);
    assert Dot(u, u) >= 0.0;
  }

  /** A free body (no force, no damping) keeps its velocity and drifts by v * dt. */
  lemma FreeBodyDrifts(b: Body, dt: real)
    requires b.InverseMass() > 0.0 && b.forces == Zero && b.damping == 0.0
    ensures Integrated(b, dt).velocity == b.velocity
    ensures Integrated(b, dt).position == Add(b.position, Scale(dt, b.velocity))
  {
  }

  /** The body with f added to its accumulator (AddForce). */
  function Pushed(b: Body, f: Vec2): Body {
    b.(forces := Add(b.forces, f))
  }

  /** n frames of AddForce(f) followed by Integrate(dt). */
  function Run(b: Body, f: Vec2, dt: real, n: nat): Body {
    if n == 0 then b else Integrated(Pushed(Run(b, f, dt, n - 1), f), dt)
  }

  /** dv added n times. */
  function Frames(n: nat, dv: Vec2): Vec2 {
    if n == 0 then Zero else Add(Frames(n - 1, dv), dv)
  }

  lemma {:induction false} FramesClosedForm(n: nat, dv: Vec2)
    ensures Frames(n, dv) == Scale(n as real, dv)
  {
    if n > 0 {
      var m: nat := n - 1;
      FramesClosedForm(m, dv);
      assert (m as real) + 1.0 == n as real;
    }
  }

  /** Under a constant force F without damping, every frame adds the same
      (F * InverseMass) * dt to the velocity. */
  lemma {:induction false} RunAccumulates(b: Body, f: Vec2, dt: real, n: nat)
    requires b.InverseMass() > 0.0 && b.damping == 0.0
    requires b.forces == Zero
    ensures Run(b, f, dt, n).velocity == Add(b.velocity, Frames(n, Scale(dt, Scale(b.InverseMass(), f))))
    ensures Run(b, f, dt, n).forces == Zero && Run(b, f, dt, n).SameBuild(b)
  {
    if n > 0 {
      var m: nat := n - 1;
      RunAccumulates(b, f, dt, m);
      RunStep(b, f, dt, m);
    }
  }

  /** A body at rest under a constant force F, without damping, has velocity
      n * (dt * F / m) after n frames: velocity is updated before position. */
  lemma ConstantForceVelocity(b: Body, f: Vec2, dt: real, n: nat)
    requires b.InverseMass() > 0.0 && b.damping == 0.0
    requires b.velocity == Zero && b.forces == Zero
    ensures Run(b, f, dt, n).velocity == Scale(n as real, Scale(dt, Scale(b.InverseMass(), f)))
  {
    var dv := Scale(dt, Scale(b.InverseMass(), f));
    RunAccumulates(b, f, dt, n);
    FramesClosedForm(n, dv);
    AddZero(Frames(n, dv));
  }

  lemma AddZero(v: Vec2)
    ensures Add(Zero, v) == v
  {
  }

  /** One frame of Run without damping adds (F * InverseMass) * dt to the velocity. */
  lemma RunStep(b: Body, f: Vec2, dt: real, m: nat)
    requires b.InverseMass() > 0.0 && b.damping == 0.0
    requires Run(b, f, dt, m).forces == Zero && Run(b, f, dt, m).SameBuild(b)
    ensures Run(b, f, dt, m + 1).velocity
            == Add(Run(b, f, dt, m).velocity, Scale(dt, Scale(b.InverseMass(), f)))
    ensures Run(b, f, dt, m + 1).forces == Zero && Run(b, f, dt, m + 1).SameBuild(b)
  {
    var pushed := Pushed(Run(b, f, dt, m), f);
    assert pushed.forces == f && pushed.InverseMass() == b.InverseMass();
    assert DampingFactor(pushed.damping, dt) == 1.0;
  }

  /** The mutable body of ImpactPhysicsEngine. */
  class RigidBody {
    var position: Vec2
    var velocity: Vec2
    var mass: Mass
    var width: real
    var height: real
    var restitution: real
    var linearDamping: real
    var allowCollision: bool
    var accumulatedForces: Vec2

    function State(): Body
      reads this
    {
      Body(position, velocity, mass, width, height, restitution, linearDamping,
           allowCollision, accumulatedForces)
    }

    function InverseMass(): real
      reads this
    {
      InverseMassOf(mass)
    }

    /** `new RigidBody(position, mass) { Width = width, Height = height }`. */
    constructor (position: Vec2, mass: Mass, width: real, height: real)
      ensures State() == Body(position, Zero, mass, width, height, 1.0, 0.0, true, Zero)
    {
      this.position := position;
      this.velocity := Zero;
      this.mass := mass;
      this.width := width;
      this.height := height;
      this.restitution := 1.0;
      this.linearDamping := 0.0;
      this.allowCollision := true;
      this.accumulatedForces := Zero;
    }

    /** The InverseMass setter. */
    method SetInverseMass(v: real)
      modifies this`mass
      ensures mass == MassForInverse(v)
      ensures v > 0.0 ==> InverseMass() == v
      ensures v <= 0.0 ==> mass == Infinite
    {
      mass := if v <= 0.0 then Infinite else Finite(1.0 / v);
    }

    method AddForce(f: Vec2)
      modifies this`accumulatedForces
      ensures accumulatedForces == Add(old(accumulatedForces), f)
      ensures State() == Pushed(old(State()), f)
    {
      accumulatedForces := Add(accumulatedForces, f);
    }

    method ClearForces()
      modifies this`accumulatedForces
      ensures accumulatedForces == Zero
    {
      accumulatedForces := Zero;
    }

    method Integrate(dt: real)
      modifies this
      ensures State() == Integrated(old(State()), dt)
    {
      if InverseMass() <= 0.0 {
        ClearForces();
        return;
      }
      var acceleration := Scale(InverseMass(), accumulatedForces);
      velocity := Add(velocity, Scale(dt, acceleration));
      velocity := Scale(DampingFactor(linearDamping, dt), velocity);
      // semi-implicit Euler: the position uses the updated velocity
      position := Add(position, Scale(dt, velocity));
      ClearForces();
    }
  }

  /** The states of a list of bodies, in list order. */
  function Snapshot(bs: seq<RigidBody>): (r: seq<Body>)
    reads bs
    ensures |r| == |bs|
    ensures forall k :: 0 <= k < |bs| ==> r[k] == bs[k].State()
  {
    if bs == [] then [] else [bs[0].State()] + Snapshot(bs[1..])
  }

  /** No object appears twice in the list. */
  ghost predicate Distinct<T>(bs: seq<T>) {
    forall a, b :: 0 <= a < b < |bs| ==> bs[a] != bs[b]
  }
}
