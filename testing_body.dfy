/** The earlier rigid body of testingPE (testingPE/Physics/RigidBody.cs): a circle
    of RenderRadius for drawing and collision, a mass fixed at construction, and an
    Integrate that moves the position by the acceleration instead of the velocity. */
module TestingBody {
  import opened Vectors
  import ImpactBody

  /** The state of one testingPE body; `forces` is the private `_accumulateedForces`. */
  datatype Body = Body(position: Vec2, velocity: Vec2, mass: ImpactBody.Mass, width: real, height: real,
                       radius: real, restitution: real, damping: real, forces: Vec2)
  {
    /** The read-only InverseMass property: the same rule as the canonical getter. */
    function InverseMass(): real {
      ImpactBody.InverseMassOf(mass)
    }

    function Acceleration(): Vec2 {
      Scale(InverseMass(), forces)
    }
  }

  /** The body after Integrate(dt) as written: the velocity update of the canonical
      body, but the position advances by acceleration * dt. */
  function Integrated(b: Body, dt: real): (r: Body)
    ensures r.forces == Zero
    ensures r == b.(position := r.position, velocity := r.velocity, forces := Zero)
    ensures b.InverseMass() <= 0.0 ==> r.position == b.position && r.velocity == b.velocity
    ensures b.InverseMass() > 0.0 ==> r.position == Add(b.position, Scale(dt, b.Acceleration()))
  {
    if b.InverseMass() <= 0.0 then
      b.(forces := Zero)
    else
      var acceleration := b.Acceleration();
      var v := Scale(ImpactBody.DampingFactor(b.damping, dt), Add(b.velocity, Scale(dt, acceleration)));
      b.(velocity := v, position := Add(b.position, Scale(dt, acceleration)), forces := Zero)
  }

  /** The same state as a canonical body (which always allows collision). */
  function AsCanonical(b: Body): (c: ImpactBody.Body)
    ensures c.InverseMass() == b.InverseMass()
  {
    ImpactBody.Body(b.position, b.velocity, b.mass, b.width, b.height, b.restitution, b.damping, true, b.forces)
  }

  /** The two Integrate variants agree on the new velocity and on an immovable body;
      the canonical one moves a movable body by the new velocity, this one by the
      acceleration. */
  lemma AgreesOnVelocity(b: Body, dt: real)
    ensures Integrated(b, dt).velocity == ImpactBody.Integrated(AsCanonical(b), dt).velocity
    ensures b.InverseMass() <= 0.0 ==>
              Integrated(b, dt).position == ImpactBody.Integrated(AsCanonical(b), dt).position
  {
    var c := AsCanonical(b);
    if b.InverseMass() > 0.0 {
      assert ImpactBody.Undamped(c, dt) == Add(b.velocity, Scale(dt, b.Acceleration()));
    }
  }

  /** Without accumulated force a body does not move, whatever its velocity. */
  lemma IntegrateIgnoresVelocity(b: Body, dt: real)
    requires b.forces == Zero
    ensures Integrated(b, dt).position == b.position
  {
    if b.InverseMass() > 0.0 {
      assert Scale(dt, b.Acceleration()) == Zero;
    }
  }

  /** A unit-mass body moving at (1, 0) with no force stays at the origin for one
      second here, while the canonical Integrate moves it to (1, 0). */
  lemma StationaryDespiteVelocity()
    ensures Integrated(Body(Zero, Vec2(1.0, 0.0), ImpactBody.Finite(1.0), 0.0, 0.0, 16.0, 0.1, 0.0, Zero), 1.0).position == Zero
    ensures ImpactBody.Integrated(
              AsCanonical(Body(Zero, Vec2(1.0, 0.0), ImpactBody.Finite(1.0), 0.0, 0.0, 16.0, 0.1, 0.0, Zero)), 1.0).position
            == Vec2(1.0, 0.0)
  {
    var b := Body(Zero, Vec2(1.0, 0.0), ImpactBody.Finite(1.0), 0.0, 0.0, 16.0, 0.1, 0.0, Zero);
    IntegrateIgnoresVelocity(b, 1.0);
    var c := AsCanonical(b);
    assert c.InverseMass() == 1.0;
    ImpactBody.FreeBodyDrifts(c, 1.0);
    assert Add(Zero, Scale(1.0, Vec2(1.0, 0.0))) == Vec2(1.0, 0.0);
  }

  /** The mutable body of testingPE. */
  class RigidBody {
    var radius: real
    var position: Vec2
    var velocity: Vec2
    const mass: ImpactBody.Mass
    var width: real
    var height: real
    var restitution: real
    var linearDamping: real
    var accumulatedForces: Vec2

    function State(): Body
      reads this
    {
      Body(position, velocity, mass, width, height, radius, restitution, linearDamping, accumulatedForces)
    }

    /** InverseMass depends only on the get-only Mass, so it reads no mutable field. */
    function InverseMass(): real {
      ImpactBody.InverseMassOf(mass)
    }

    /** `new RigidBody(position, mass)`: RenderRadius 16, Restitution 0.1, no damping,
        and C#'s zero defaults elsewhere. */
    constructor (position: Vec2, mass: ImpactBody.Mass)
      ensures State() == Body(position, Zero, mass, 0.0, 0.0, 16.0, 0.1, 0.0, Zero)
    {
      this.radius := 16.0;
      this.position := position;
      this.velocity := Zero;
      this.mass := mass;
      this.width := 0.0;
      this.height := 0.0;
      this.restitution := 0.1;
      this.linearDamping := 0.0;
      this.accumulatedForces := Zero;
    }

    method AddForce(f: Vec2)
      modifies this`accumulatedForces
      ensures accumulatedForces == Add(old(accumulatedForces), f)
    {
      accumulatedForces := Add(accumulatedForces, f);
    }

    method ClearForces()
      modifies this`accumulatedForces
      ensures accumulatedForces == Zero
    {
      accumulatedForces := Zero;
    }

    method Integrate(dt: real)
      modifies this
      ensures State() == Integrated(old(State()), dt)
    {
      if InverseMass() <= 0.0 {
        ClearForces();
        return;
      }
      var acceleration := Scale(InverseMass(), accumulatedForces);
      velocity := Add(velocity, Scale(dt, acceleration));
      velocity := Scale(ImpactBody.DampingFactor(linearDamping, dt), velocity);
      position := Add(position, Scale(dt, acceleration));
      ClearForces();
    }
  }

  /** The states of a list of bodies, in list order. */
  function Snapshot(bs: seq<RigidBody>): (r: seq<Body>)
    reads bs
    ensures |r| == |bs|
    ensures forall k :: 0 <= k < |bs| ==> r[k] == bs[k].State()
  {
    if bs == [] then [] else [bs[0].State()] + Snapshot(bs[1..])
  }
}
