/** Circle collision of testingPE (testingPE/Physics/SharedLaws/Collision.cs): the
    all-pairs handler, a squared-distance test that also pushes overlapping circles
    apart, and a ResolveCollision that computes a contact and then writes nothing.
    MathF.Sqrt is the parameter `sqrt`, constrained by IsSqrt. */
module TestingCollision {
  import opened Vectors
  import opened PairOrder
  import ImpactBody
  import opened TestingBody

  /** Positional correction: the fraction of the excess penetration removed. */
  const Percent: real := 0.8
  /** Positional correction: the overlap left alone. */
  const Slop: real := 0.01

  /** sqrt behaves as MathF.Sqrt on the reals: a non-negative root of every
      non-negative argument. */
  ghost predicate IsSqrt(sqrt: real -> real) {
    forall x :: x >= 0.0 ==> sqrt(x) >= 0.0 && sqrt(x) * sqrt(x) == x
  }

  /** The root of a positive number is positive. */
  lemma RootPositive(sqrt: real -> real, x: real)
    requires IsSqrt(sqrt) && x > 0.0
    ensures sqrt(x) > 0.0
  {
    assert sqrt(x) * sqrt(x) == x;
  }

  /** A non-negative number whose square is m * m, for m > 0, is m. */
  lemma RootUnique(s: real, m: real)
    requires s >= 0.0 && m > 0.0 && s * s == m * m
    ensures s == m
  {
    if s > m {
      calc {
        s * s;
      >  { assert s * s > m * s; }
        m * s;
      >
        m * m;
      }
    } else if s < m {
      calc {
        s * s;
      <=
        s * m;
      <
        m * m;
      }
    }
  }

  // ---------------------------------------------------------------------------
  // DetectCollision

  /** The centre-to-centre vector (dx, dy) from the first body to the second. */
  function Offset(b1: Body, b2: Body): Vec2 {
    Sub(b2.position, b1.position)
  }

  /** dx * dx + dy * dy */
  function DistanceSq(b1: Body, b2: Body): (r: real)
    ensures r >= 0.0
  {
    var d := Offset(b1, b2);
    d.x * d.x + d.y * d.y
  }

  /** The sum of the render radii. */
  function MinDistance(b1: Body, b2: Body): real {
    b1.radius + b2.radius
  }

  /** What DetectCollision returns: the circles overlap or touch. */
  predicate InContact(b1: Body, b2: Body) {
    DistanceSq(b1, b2) <= MinDistance(b1, b2) * MinDistance(b1, b2)
  }

  lemma InContactSymmetric(b1: Body, b2: Body)
    ensures InContact(b1, b2) == InContact(b2, b1)
  {
    var d := Offset(b1, b2);
    assert Offset(b2, b1) == Vec2(-d.x, -d.y);
    assert (-d.x) * (-d.x) == d.x * d.x && (-d.y) * (-d.y) == d.y * d.y;
  }

  /** (dx, dy) and the squared distance after the fallback for coincident centres,
      which replaces them by (1, 0) and 1: the squared distance is then positive. */
  function Direction(b1: Body, b2: Body): (r: (Vec2, real))
    ensures r.1 > 0.0
    ensures r.1 == r.0.x * r.0.x + r.0.y * r.0.y
    ensures DistanceSq(b1, b2) == 0.0 ==> r == (Vec2(1.0, 0.0), 1.0)
    ensures DistanceSq(b1, b2) != 0.0 ==> r == (Offset(b1, b2), DistanceSq(b1, b2))
  {
    if DistanceSq(b1, b2) == 0.0 then (Vec2(1.0, 0.0), 1.0) else (Offset(b1, b2), DistanceSq(b1, b2))
  }

  /** The distance used by DetectCollision, never zero. */
  function Distance(b1: Body, b2: Body, sqrt: real -> real): (r: real)
    requires IsSqrt(sqrt)
    ensures r > 0.0
    ensures r * r == Direction(b1, b2).1
  {
    RootPositive(sqrt, Direction(b1, b2).1);
    sqrt(Direction(b1, b2).1)
  }

  function Penetration(b1: Body, b2: Body, sqrt: real -> real): real
    requires IsSqrt(sqrt)
  {
    MinDistance(b1, b2) - Distance(b1, b2, sqrt)
  }

  /** (dx / distance, dy / distance) */
  function Normal(b1: Body, b2: Body, sqrt: real -> real): Vec2
    requires IsSqrt(sqrt)
  {
    var d := Direction(b1, b2).0;
    var distance := Distance(b1, b2, sqrt);
    Vec2(d.x / distance, d.y / distance)
  }

  /** The inverse mass DetectCollision computes itself: `Mass > 0 ? 1 / Mass : 0`,
      where 1 / PositiveInfinity is 0. */
  function DetectInverseMass(m: ImpactBody.Mass): (r: real)
    ensures r == ImpactBody.InverseMassOf(m)
  {
    if m.Infinite? then 0.0 else if m.value > 0.0 then 1.0 / m.value else 0.0
  }

  /** max(p - slop, 0) / invMassSum * percent */
  function CorrectionMagnitude(penetration: real, invMass1: real, invMass2: real): (m: real)
    requires invMass1 + invMass2 > 0.0
    ensures m >= 0.0
    ensures penetration <= Slop ==> m == 0.0
  {
    Max(penetration - Slop, 0.0) / (invMass1 + invMass2) * Percent
  }

  lemma CorrectionShared(penetration: real, invMass1: real, invMass2: real)
    requires invMass1 + invMass2 > 0.0
    ensures CorrectionMagnitude(penetration, invMass1, invMass2) * (invMass1 + invMass2)
            == Percent * Max(penetration - Slop, 0.0)
  {
  }

  /** DetectCollision moves the bodies: they are in contact, overlap and are not
      both immovable. */
  predicate Corrects(b1: Body, b2: Body, sqrt: real -> real)
    requires IsSqrt(sqrt)
  {
    InContact(b1, b2) && Penetration(b1, b2, sqrt) > 0.0 &&
    DetectInverseMass(b1.mass) + DetectInverseMass(b2.mass) > 0.0
  }

  /** The positions after the correction: opposite moves along the normal,
      weighted by inverse mass. */
  function Corrected(b1: Body, b2: Body, sqrt: real -> real): (r: (Vec2, Vec2))
    requires IsSqrt(sqrt)
    requires DetectInverseMass(b1.mass) + DetectInverseMass(b2.mass) > 0.0
    ensures Penetration(b1, b2, sqrt) <= Slop ==> r == (b1.position, b2.position)
    ensures DetectInverseMass(b1.mass) == 0.0 ==> r.0 == b1.position
    ensures DetectInverseMass(b2.mass) == 0.0 ==> r.1 == b2.position
  {
    var invMass1 := DetectInverseMass(b1.mass);
    var invMass2 := DetectInverseMass(b2.mass);
    var correction := Scale(CorrectionMagnitude(Penetration(b1, b2, sqrt), invMass1, invMass2), Normal(b1, b2, sqrt));
    (Sub(b1.position, Scale(invMass1, correction)), Add(b2.position, Scale(invMass2, correction)))
  }

  /** The result of DetectCollision and the two bodies after it. */
  function Detected(b1: Body, b2: Body, sqrt: real -> real): (r: (bool, Body, Body))
    requires IsSqrt(sqrt)
    ensures r.0 <==> InContact(b1, b2)
    // only positions ever change
    ensures r.1 == b1.(position := r.1.position) && r.2 == b2.(position := r.2.position)
    ensures !Corrects(b1, b2, sqrt) ==> r.1 == b1 && r.2 == b2
    ensures Corrects(b1, b2, sqrt) ==> (r.1.position, r.2.position) == Corrected(b1, b2, sqrt)
    ensures Penetration(b1, b2, sqrt) <= Slop ==> r.1 == b1 && r.2 == b2
    ensures DetectInverseMass(b1.mass) == 0.0 ==> r.1 == b1
    ensures DetectInverseMass(b2.mass) == 0.0 ==> r.2 == b2
  {
    if DistanceSq(b1, b2) > MinDistance(b1, b2) * MinDistance(b1, b2) then
      (false, b1, b2)
    else if Penetration(b1, b2, sqrt) > 0.0 && DetectInverseMass(b1.mass) + DetectInverseMass(b2.mass) > 0.0 then
      var p := Corrected(b1, b2, sqrt);
      (true, b1.(position := p.0), b2.(position := p.1))
    else
      (true, b1, b2)
  }

  /** The normal DetectCollision computes is a unit vector. */
  lemma NormalIsUnit(b1: Body, b2: Body, sqrt: real -> real)
    requires IsSqrt(sqrt)
    ensures Dot(Normal(b1, b2, sqrt), Normal(b1, b2, sqrt)) == 1.0
  {
    var d := Direction(b1, b2).0;
    var dist := Distance(b1, b2, sqrt);
    UnitAfterDivision(d, dist);
  }

  lemma UnitAfterDivision(d: Vec2, dist: real)
    requires dist > 0.0 && dist * dist == d.x * d.x + d.y * d.y
    ensures Dot(Vec2(d.x / dist, d.y / dist), Vec2(d.x / dist, d.y / dist)) == 1.0
  {
    var nx, ny := d.x / dist, d.y / dist;
    assert nx * dist == d.x && ny * dist == d.y;
    calc {
      (nx * nx + ny * ny) * (dist * dist);
    ==
      (nx * dist) * (nx * dist) + (ny * dist) * (ny * dist);
    ==
      d.x * d.x + d.y * d.y;
    ==
      dist * dist;
    }
    CancelSquare(nx * nx + ny * ny, dist);
    calc {
      Dot(Vec2(nx, ny), Vec2(nx, ny));
    ==
      nx * nx + ny * ny;
    ==
      1.0;
    }
  }

  /** a * r^2 == r^2 with r non-zero makes a equal to 1. */
  lemma CancelSquare(a: real, r: real)
    requires r != 0.0 && a * (r * r) == r * r
    ensures a == 1.0
  {
    assert (a - 1.0) * (r * r) == 0.0;
  }

  /** Exactly touching circles (distance equal to the sum of positive radii) are
      detected but not moved: the penetration is zero. */
  lemma TouchingCirclesStay(b1: Body, b2: Body, sqrt: real -> real)
    requires IsSqrt(sqrt)
    requires MinDistance(b1, b2) > 0.0
    requires DistanceSq(b1, b2) == MinDistance(b1, b2) * MinDistance(b1, b2)
    ensures Detected(b1, b2, sqrt) == (true, b1, b2)
  {
    var m := MinDistance(b1, b2);
    assert DistanceSq(b1, b2) > 0.0 by {
      calc {
        DistanceSq(b1, b2);
      ==
        m * m;
      >  { SquaresPositive(m, 0.0); }
        0.0;
      }
    }
    assert Direction(b1, b2).1 == m * m;
    RootUnique(Distance(b1, b2, sqrt), m);
    assert Penetration(b1, b2, sqrt) == 0.0;
  }

  /** Coincident centres are always detected; the fallback gives distance 1 and
      the normal (1, 0). */
  lemma CoincidentCentres(b1: Body, b2: Body, sqrt: real -> real)
    requires IsSqrt(sqrt)
    requires b1.position == b2.position
    ensures Detected(b1, b2, sqrt).0
    ensures Distance(b1, b2, sqrt) == 1.0
    ensures Normal(b1, b2, sqrt) == Vec2(1.0, 0.0)
  {
    assert Offset(b1, b2) == Zero;
    assert DistanceSq(b1, b2) == 0.0;
    var m := MinDistance(b1, b2);
    assert m * m >= 0.0 by {
      if m < 0.0 {
        assert m * m == (-m) * (-m);
      }
    }
    RootUnique(Distance(b1, b2, sqrt), 1.0);
  }

  /** The correction moves the bodies apart along the normal by percent of the
      penetration beyond the slop, whatever the split between them. */
  lemma DetectionSeparates(b1: Body, b2: Body, sqrt: real -> real)
    requires IsSqrt(sqrt) && DetectInverseMass(b1.mass) + DetectInverseMass(b2.mass) > 0.0
    ensures Sub(Corrected(b1, b2, sqrt).1, Corrected(b1, b2, sqrt).0)
            == Add(Offset(b1, b2), Scale(Percent * Max(Penetration(b1, b2, sqrt) - Slop, 0.0), Normal(b1, b2, sqrt)))
  {
    var i1, i2 := DetectInverseMass(b1.mass), DetectInverseMass(b2.mass);
    var p := Penetration(b1, b2, sqrt);
    var n := Normal(b1, b2, sqrt);
    var m := CorrectionMagnitude(p, i1, i2);
    assert Corrected(b1, b2, sqrt) == (Sub(b1.position, Scale(i1, Scale(m, n))), Add(b2.position, Scale(i2, Scale(m, n))));
    CorrectionShared(p, i1, i2);
    assert m * (i1 + i2) == Percent * Max(p - Slop, 0.0);
    SplitMove(b1.position, b2.position, n, m, i1, i2);
  }

  lemma SplitMove(p1: Vec2, p2: Vec2, n: Vec2, m: real, i1: real, i2: real)
    ensures Sub(Add(p2, Scale(i2, Scale(m, n))), Sub(p1, Scale(i1, Scale(m, n))))
            == Add(Sub(p2, p1), Scale(m * (i1 + i2), n))
  {
  }

  /** The correction keeps the centre of mass of two finite bodies where it was. */
  lemma DetectionKeepsCentreOfMass(b1: Body, b2: Body, sqrt: real -> real)
    requires IsSqrt(sqrt)
    requires b1.mass.Finite? && b1.mass.value > 0.0
    requires b2.mass.Finite? && b2.mass.value > 0.0
    ensures Add(Scale(b1.mass.value, Detected(b1, b2, sqrt).1.position),
                Scale(b2.mass.value, Detected(b1, b2, sqrt).2.position))
            == Add(Scale(b1.mass.value, b1.position), Scale(b2.mass.value, b2.position))
  {
    if Corrects(b1, b2, sqrt) {
      var i1, i2 := DetectInverseMass(b1.mass), DetectInverseMass(b2.mass);
      var correction := Scale(CorrectionMagnitude(Penetration(b1, b2, sqrt), i1, i2), Normal(b1, b2, sqrt));
      ImpactBody.InverseTimesMass(b1.mass);
      ImpactBody.InverseTimesMass(b2.mass);
      WeightedMove(b1.mass.value, i1, b1.position, correction, -1.0);
      WeightedMove(b2.mass.value, i2, b2.position, correction, 1.0);
    }
  }

  /** m * (p + s * inv * c) == m * p + s * c when m * inv == 1. */
  lemma WeightedMove(m: real, inv: real, p: Vec2, c: Vec2, s: real)
    requires inv * m == 1.0
    requires s == 1.0 || s == -1.0
    ensures s == -1.0 ==> Scale(m, Sub(p, Scale(inv, c))) == Sub(Scale(m, p), c)
    ensures s == 1.0 ==> Scale(m, Add(p, Scale(inv, c))) == Add(Scale(m, p), c)
  {
    assert m * (inv * c.x) == (inv * m) * c.x;
    assert m * (inv * c.y) == (inv * m) * c.y;
  }

  /** DetectCollision on two bodies. The same body passed twice is detected and
      left where it was: the correction it applies in the first role it takes
      back in the second. */
  method DetectCollision(o1: RigidBody, o2: RigidBody, sqrt: real -> real) returns (hit: bool)
    requires IsSqrt(sqrt)
    modifies o1`position, o2`position
    ensures o1 != o2 ==> (hit, o1.State(), o2.State()) == Detected(old(o1.State()), old(o2.State()), sqrt)
    ensures o1 == o2 ==> hit && o1.State() == old(o1.State())
  {
    ghost var b1, b2 := o1.State(), o2.State();
    var dx := o2.position.x - o1.position.x;
    var dy := o2.position.y - o1.position.y;
    var distanceSq := dx * dx + dy * dy;
    var minDistance := o1.radius + o2.radius;
    var minDistanceSq := minDistance * minDistance;
    assert distanceSq == DistanceSq(b1, b2) && minDistance == MinDistance(b1, b2);
    if distanceSq > minDistanceSq {
      if o1 == o2 {
        assert false;
      }
      return false;
    }
    if distanceSq == 0.0 {
      dx := 1.0;
      dy := 0.0;
      distanceSq := 1.0;
    }
    assert (Vec2(dx, dy), distanceSq) == Direction(b1, b2);
    RootPositive(sqrt, distanceSq);
    var distance := sqrt(distanceSq);
    var penetration := minDistance - distance;
    assert penetration == Penetration(b1, b2, sqrt);
    if penetration > 0.0 {
      var normal := Vec2(dx / distance, dy / distance);
      var invMass1 := DetectInverseMass(o1.mass);
      var invMass2 := DetectInverseMass(o2.mass);
      var invMassSum := invMass1 + invMass2;
      if invMassSum > 0.0 {
        var corrMag := Max(penetration - Slop, 0.0) / invMassSum * Percent;
        var correction := Scale(corrMag, normal);
        assert correction == Scale(CorrectionMagnitude(Penetration(b1, b2, sqrt), invMass1, invMass2), Normal(b1, b2, sqrt));
        o1.position := Sub(o1.position, Scale(invMass1, correction));
        o2.position := Add(o2.position, Scale(invMass2, correction));
        if o1 == o2 {
          SubThenAdd(b1.position, Scale(invMass1, correction));
        } else {
          assert Corrects(b1, b2, sqrt);
          assert (o1.position, o2.position) == Corrected(b1, b2, sqrt);
          assert o1.State() == b1.(position := o1.position);
          assert o2.State() == b2.(position := o2.position);
        }
        return true;
      }
    }
    assert !Corrects(b1, b2, sqrt);
    return true;
  }

  lemma SubThenAdd(p: Vec2, d: Vec2)
    ensures Add(Sub(p, d), d) == p
  {
  }

  /** ResolveCollision computes the normal, the penetration and the inverse masses
      of a contact and returns without writing to either body. */
  method ResolveCollision(o1: RigidBody, o2: RigidBody, sqrt: real -> real)
    requires IsSqrt(sqrt)
    ensures unchanged(o1, o2)
  {
    var delta := Sub(o2.position, o1.position);
    var distSq := delta.x * delta.x + delta.y * delta.y;
    if distSq < 0.00000001 {
      delta := Vec2(1.0, 0.0);
      distSq := 1.0;
    }
    RootPositive(sqrt, distSq);
    var dist := sqrt(distSq);
    var normal := Vec2(delta.x / dist, delta.y / dist);
    var radiusSum := o1.radius + o2.radius;
    var penetration := radiusSum - dist;
    if penetration <= 0.0 {
      return;
    }
    var invMass1 := o1.InverseMass();
    var invMass2 := o2.InverseMass();
    var invMassSum := invMass1 + invMass2;
    if invMassSum <= 0.0 {
      return;
    }
  }

  // ---------------------------------------------------------------------------
  // CollisionHandler

  /** The state change of one visited pair (i, j): detection, which may move the
      two bodies (the ResolveCollision that follows changes nothing). */
  function VisitPair(s: seq<Body>, p: Pair, sqrt: real -> real): (r: seq<Body>)
    requires IsSqrt(sqrt)
    ensures |r| == |s|
  {
    if p.0 < p.1 < |s| then
      var r := Detected(s[p.0], s[p.1], sqrt);
      s[p.0 := r.1][p.1 := r.2]
    else
      s
  }

  /** The list after visiting the pairs ps in order. */
  function VisitAll(s: seq<Body>, ps: seq<Pair>, sqrt: real -> real): (r: seq<Body>)
    requires IsSqrt(sqrt)
    ensures |r| == |s|
    decreases |ps|
  {
    if ps == [] then s else VisitAll(VisitPair(s, ps[0], sqrt), ps[1..], sqrt)
  }

  /** The list after CollisionHandler. */
  function Handled(s: seq<Body>, sqrt: real -> real): (r: seq<Body>)
    requires IsSqrt(sqrt)
    ensures |r| == |s|
  {
    VisitAll(s, AllPairs(|s|), sqrt)
  }

  /** What the handler may do to a list: move bodies, but change nothing else
      (velocities in particular), and never move an immovable body. */
  predicate Kept(s: seq<Body>, t: seq<Body>) {
    |s| == |t| &&
    forall k :: 0 <= k < |s| ==>
      t[k] == s[k].(position := t[k].position) &&
      (s[k].InverseMass() == 0.0 ==> t[k] == s[k])
  }

  lemma VisitPairKept(s: seq<Body>, p: Pair, sqrt: real -> real)
    requires IsSqrt(sqrt)
    ensures Kept(s, VisitPair(s, p, sqrt))
  {
  }

  lemma {:induction false} VisitAllKept(s: seq<Body>, ps: seq<Pair>, sqrt: real -> real)
    requires IsSqrt(sqrt)
    ensures Kept(s, VisitAll(s, ps, sqrt))
    decreases |ps|
  {
    if ps != [] {
      VisitPairKept(s, ps[0], sqrt);
      VisitAllKept(VisitPair(s, ps[0], sqrt), ps[1..], sqrt);
    }
  }

  /** The handler changes no velocity and never moves an immovable body. */
  lemma HandledKept(s: seq<Body>, sqrt: real -> real)
    requires IsSqrt(sqrt)
    ensures Kept(s, Handled(s, sqrt))
  {
    VisitAllKept(s, AllPairs(|s|), sqrt);
  }

  /** Pairs whose circles are apart leave the list as it was. */
  lemma {:induction false} ApartPairsUntouched(s: seq<Body>, ps: seq<Pair>, sqrt: real -> real)
    requires IsSqrt(sqrt)
    requires forall a :: 0 <= a < |ps| && ps[a].0 < ps[a].1 < |s| ==> !InContact(s[ps[a].0], s[ps[a].1])
    ensures VisitAll(s, ps, sqrt) == s
    decreases |ps|
  {
    if ps != [] {
      assert VisitPair(s, ps[0], sqrt) == s;
      forall a | 0 <= a < |ps[1..]| && ps[1..][a].0 < ps[1..][a].1 < |s|
        ensures !InContact(s[ps[1..][a].0], s[ps[1..][a].1])
      {
        assert ps[1..][a] == ps[a + 1];
      }
      ApartPairsUntouched(s, ps[1..], sqrt);
    }
  }

  /** A list whose circles are pairwise apart is left as it was. */
  lemma ApartBodiesUntouched(s: seq<Body>, sqrt: real -> real)
    requires IsSqrt(sqrt)
    requires forall i, j :: 0 <= i < j < |s| ==> !InContact(s[i], s[j])
    ensures Handled(s, sqrt) == s
  {
    ApartPairsUntouched(s, AllPairs(|s|), sqrt);
  }

  /** A list that differs from s only at positions i and j. */
  lemma UpdateTwo<T>(t: seq<T>, s: seq<T>, i: nat, j: nat)
    requires |t| == |s| && i < |s| && j < |s|
    requires forall k :: 0 <= k < |s| && k != i && k != j ==> t[k] == s[k]
    ensures t == s[i := t[i]][j := t[j]]
  {
  }

  /** One turn of the handler's inner loop: detection on the pair (i, j), then the
      resolution, which changes nothing. */
  method VisitPairOf(bodies: seq<RigidBody>, i: nat, j: nat, sqrt: real -> real)
    requires IsSqrt(sqrt)
    requires ImpactBody.Distinct(bodies) && i < j < |bodies|
    modifies bodies[i], bodies[j]
    ensures Snapshot(bodies) == VisitPair(old(Snapshot(bodies)), (i, j), sqrt)
  {
    ghost var before := Snapshot(bodies);
    var hit := DetectCollision(bodies[i], bodies[j], sqrt);
    if hit {
      ResolveCollision(bodies[i], bodies[j], sqrt);
    }
    ghost var after := Snapshot(bodies);
    assert (after[i], after[j]) == (Detected(before[i], before[j], sqrt).1, Detected(before[i], before[j], sqrt).2);
    forall k | 0 <= k < |bodies| && k != i && k != j
      ensures after[k] == before[k]
    {
      assert bodies[k] != bodies[i] && bodies[k] != bodies[j];
    }
    UpdateTwo(after, before, i, j);
  }

  /** CollisionHandler over a list of distinct bodies. */
  method CollisionHandler(bodies: seq<RigidBody>, sqrt: real -> real)
    requires IsSqrt(sqrt)
    requires ImpactBody.Distinct(bodies)
    modifies bodies
    ensures Snapshot(bodies) == Handled(old(Snapshot(bodies)), sqrt)
  {
    ghost var s0 := Snapshot(bodies);
    var n := |bodies|;
    var i := 0;
    while i < n - 1
      invariant 0 <= i <= n
      invariant VisitAll(Snapshot(bodies), PairsFrom(i, n), sqrt) == Handled(s0, sqrt)
    {
      assert PairsFrom(i, n) == Row(i, i + 1, n) + PairsFrom(i + 1, n);
      var j := i + 1;
      while j < n
        invariant i + 1 <= j <= n
        invariant VisitAll(Snapshot(bodies), Row(i, j, n) + PairsFrom(i + 1, n), sqrt) == Handled(s0, sqrt)
      {
        ghost var later := Row(i, j + 1, n) + PairsFrom(i + 1, n);
        RowUnfold(i, j, n, PairsFrom(i + 1, n));
        assert ([(i, j)] + later)[0] == (i, j) && ([(i, j)] + later)[1..] == later;
        VisitPairOf(bodies, i, j, sqrt);
        j := j + 1;
      }
      assert Row(i, n, n) + PairsFrom(i + 1, n) == PairsFrom(i + 1, n);
      i := i + 1;
    }
  }
}
