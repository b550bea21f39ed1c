/** The canonical force generator (ImpactPhysicsEngine/Physics/SharedLaws/Gravity.cs). */
module ImpactGravity {
  import opened Vectors
  import opened ImpactBody

  /** IForceGenerator. Gravity is its only implementation in this project; a
      generator is a value, so setting Gravity.G between steps is replacing
      the generator by another one. */
  datatype ForceGenerator = Gravity(g: Vec2)
  {
    /** The body after Apply: an immovable body is left alone, any other body
        receives the weight G * Mass on its accumulator. */
    function AppliedTo(b: Body): (r: Body)
      ensures r == b.(forces := r.forces)
      ensures b.InverseMass() == 0.0 ==> r == b
      ensures b.InverseMass() != 0.0 ==> b.mass.Finite? && Sub(r.forces, b.forces) == Scale(b.mass.value, g)
      // the weight adds exactly G to the acceleration
      ensures b.InverseMass() != 0.0 ==>
                Scale(b.InverseMass(), r.forces) == Add(Scale(b.InverseMass(), b.forces), g)
    {
      if b.InverseMass() == 0.0 then b
      else
        InverseTimesMass(b.mass);
        WeightTimesInverseMass(b.mass.value, b.InverseMass(), g, b.forces);
        b.(forces := Add(b.forces, Scale(b.mass.value, g)))
    }

    method Apply(body: RigidBody, dt: real)
      modifies body`accumulatedForces
      ensures body.State() == AppliedTo(old(body.State()))
    {
      if body.InverseMass() == 0.0 {
        return;
      }
      body.AddForce(Scale(body.mass.value, g));
    }
  }

  /** inv * (F + m * G) == inv * F + G when inv * m == 1. */
  lemma WeightTimesInverseMass(m: real, inv: real, g: Vec2, f: Vec2)
    requires inv * m == 1.0
    ensures Scale(inv, Add(f, Scale(m, g))) == Add(Scale(inv, f), g)
  {
    assert inv * (m * g.x) == (inv * m) * g.x;
    assert inv * (m * g.y) == (inv * m) * g.y;
  }

  /** Gravity gives every movable body the acceleration G whatever its mass: with no
      other force and no damping, one Integrate after Apply changes the velocity by G * dt. */
  lemma AccelerationIndependentOfMass(gen: ForceGenerator, b: Body, dt: real)
    requires b.InverseMass() > 0.0 && b.damping == 0.0 && b.forces == Zero
    ensures Integrated(gen.AppliedTo(b), dt).velocity == Add(b.velocity, Scale(dt, gen.g))
  {
    var pushed := gen.AppliedTo(b);
    assert Scale(b.InverseMass(), pushed.forces) == Add(Scale(b.InverseMass(), Zero), gen.g);
    assert Scale(b.InverseMass(), pushed.forces) == gen.g;
    assert DampingFactor(pushed.damping, dt) == 1.0;
  }

  /** An immovable body under gravity and integration keeps position and velocity. */
  lemma ImmovableUnderGravity(gen: ForceGenerator, b: Body, dt: real)
    requires b.InverseMass() == 0.0
    ensures Integrated(gen.AppliedTo(b), dt).position == b.position
    ensures Integrated(gen.AppliedTo(b), dt).velocity == b.velocity
  {
  }
}
