/** The linear drag generator of testingPE (testingPE/Physics/SharedLaws/LinearDrag.cs):
    a force -Coefficient * Width * Height * Velocity on every movable body. */
module TestingDrag {
  import opened Vectors
  import ImpactBody
  import opened TestingBody

  /** The force a drag of coefficient c puts on b: the area Width * Height scales it. */
  function DragForce(c: real, b: Body): Vec2 {
    Scale(-c * (b.width * b.height), b.velocity)
  }

  /** A LinearDrag; setting Coefficient replaces the value. */
  datatype LinearDrag = LinearDrag(coefficient: real)
  {
    /** The body after Apply: the drag force added to the accumulator of a movable body. */
    function AppliedTo(b: Body): (r: Body)
      ensures r == b.(forces := r.forces)
      ensures b.InverseMass() == 0.0 ==> r == b
      ensures b.InverseMass() != 0.0 ==> Sub(r.forces, b.forces) == DragForce(coefficient, b)
    {
      if b.InverseMass() == 0.0 then b else b.(forces := Add(b.forces, DragForce(coefficient, b)))
    }

    /** Apply(body, dt); dt is not used. */
    method Apply(body: RigidBody, dt: real)
      modifies body`accumulatedForces
      ensures body.State() == AppliedTo(old(body.State()))
    {
      if body.InverseMass() == 0.0 {
        return;
      }
      var area := body.width * body.height;
      var arealCoefficient := -coefficient * area;
      body.AddForce(Scale(arealCoefficient, body.velocity));
    }
  }

  /** A body at rest, a zero coefficient or a zero area gives no drag. */
  lemma NoDragWithoutMotion(c: real, b: Body)
    requires b.velocity == Zero || c == 0.0 || b.width * b.height == 0.0
    ensures DragForce(c, b) == Zero
  {
    var k := -c * (b.width * b.height);
    if b.velocity != Zero {
      assert k == 0.0;
    }
  }

  /** With a non-negative coefficient and area the drag never points along the motion,
      and with positive ones it points against any motion. */
  lemma DragOpposesMotion(c: real, b: Body)
    requires c >= 0.0 && b.width * b.height >= 0.0
    ensures Dot(DragForce(c, b), b.velocity) <= 0.0
    ensures c > 0.0 && b.width * b.height > 0.0 && b.velocity != Zero ==>
              Dot(DragForce(c, b), b.velocity) < 0.0
  {
    var area := b.width * b.height;
    var k := -c * area;
    var v := b.velocity;
    assert Dot(Scale(k, v), v) == k * Dot(v, v);
    assert k <= 0.0 && Dot(v, v) >= 0.0;
    if c > 0.0 && area > 0.0 && v != Zero {
      assert k < 0.0;
      DotSelfPositive(v);
    }
  }

  /** Drag alone, then one undamped Integrate: the velocity is scaled by
      1 - Coefficient * Width * Height * InverseMass * dt. */
  lemma DragThenIntegrate(d: LinearDrag, b: Body, dt: real)
    requires b.InverseMass() > 0.0 && b.forces == Zero && b.damping == 0.0
    ensures Integrated(d.AppliedTo(b), dt).velocity
            == Scale(1.0 - d.coefficient * (b.width * b.height) * b.InverseMass() * dt, b.velocity)
  {
    var k := -d.coefficient * (b.width * b.height);
    var inv := b.InverseMass();
    var pushed := d.AppliedTo(b);
    assert pushed.forces == Scale(k, b.velocity);
    assert pushed.Acceleration() == Scale(inv * k, b.velocity);
    assert ImpactBody.DampingFactor(0.0, dt) == 1.0;
    var v := b.velocity;
    var f := 1.0 - d.coefficient * (b.width * b.height) * inv * dt;
    assert f == 1.0 + dt * (inv * k);
    assert Add(v, Scale(dt, Scale(inv * k, v))) == Scale(f, v);
  }
}
