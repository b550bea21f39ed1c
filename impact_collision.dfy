/** Box collision of the canonical engine (ImpactPhysicsEngine/Physics/SharedLaws/Collision.cs):
    the all-pairs handler, the axis-aligned overlap test, and resolution by a normal
    impulse followed by positional correction. */
module ImpactCollision {
  import opened Vectors
  import opened PairOrder
  import opened ImpactBody

  /** Positional correction: the fraction of the excess penetration removed per step. */
  const Percent: real := 0.8
  /** Positional correction: the penetration left alone. */
  const Slop: real := 0.01

  /** The closed intervals [lo1, hi1] and [lo2, hi2] share a point. */
  predicate IntervalsMeet(lo1: real, hi1: real, lo2: real, hi2: real) {
    lo1 <= hi2 && lo2 <= hi1
  }

  /** DetectCollision: the two boxes, centred on their positions, overlap or touch. */
  function DetectCollision(b1: Body, b2: Body): (r: bool)
    ensures r <==>
      IntervalsMeet(b1.position.x - b1.width * 0.5, b1.position.x + b1.width * 0.5,
                    b2.position.x - b2.width * 0.5, b2.position.x + b2.width * 0.5) &&
      IntervalsMeet(b1.position.y - b1.height * 0.5, b1.position.y + b1.height * 0.5,
                    b2.position.y - b2.height * 0.5, b2.position.y + b2.height * 0.5)
  {
    var halfWidth1 := b1.width * 0.5;
    var halfHeight1 := b1.height * 0.5;
    var halfWidth2 := b2.width * 0.5;
    var halfHeight2 := b2.height * 0.5;
    var dx := b1.position.x - b2.position.x;
    var dy := b1.position.y - b2.position.y;
    var overlapX := Abs(dx) <= halfWidth1 + halfWidth2;
    var overlapY := Abs(dy) <= halfHeight1 + halfHeight2;
    overlapX && overlapY
  }

  lemma DetectSymmetric(b1: Body, b2: Body)
    ensures DetectCollision(b1, b2) == DetectCollision(b2, b1)
  {
  }

  /** The centre-to-centre vector from the first body to the second. */
  function Delta(b1: Body, b2: Body): Vec2 {
    Sub(b2.position, b1.position)
  }

  function OverlapX(b1: Body, b2: Body): real {
    (b1.width * 0.5 + b2.width * 0.5) - Abs(Delta(b1, b2).x)
  }

  function OverlapY(b1: Body, b2: Body): real {
    (b1.height * 0.5 + b2.height * 0.5) - Abs(Delta(b1, b2).y)
  }

  /** The collision normal and penetration depth found by ResolveCollision. */
  datatype Contact = Contact(normal: Vec2, penetration: real)

  /** The contact of two boxes, None when ResolveCollision returns early on a
      non-positive overlap (so touching boxes have no contact). */
  function ContactOf(b1: Body, b2: Body): (c: Option<Contact>)
    ensures c.None? <==> OverlapX(b1, b2) <= 0.0 || OverlapY(b1, b2) <= 0.0
    ensures c.Some? ==> c.value.penetration == Min(OverlapX(b1, b2), OverlapY(b1, b2)) > 0.0
    // the normal is a unit vector along one axis: X exactly when its overlap is smaller
    ensures c.Some? ==> Dot(c.value.normal, c.value.normal) == 1.0
    ensures c.Some? ==> (c.value.normal.y == 0.0 <==> OverlapX(b1, b2) < OverlapY(b1, b2))
    ensures c.Some? ==> (c.value.normal.x == 0.0 <==> !(OverlapX(b1, b2) < OverlapY(b1, b2)))
    // it points from the first body towards the second on that axis
    ensures c.Some? && c.value.normal.y == 0.0 ==> (c.value.normal.x > 0.0 <==> Delta(b1, b2).x > 0.0)
    ensures c.Some? && c.value.normal.x == 0.0 ==> (c.value.normal.y > 0.0 <==> Delta(b1, b2).y > 0.0)
    ensures c.Some? ==> Dot(c.value.normal, Delta(b1, b2)) >= 0.0
  {
    var delta := Delta(b1, b2);
    var overlapX := OverlapX(b1, b2);
    if overlapX <= 0.0 then None
    else
      var overlapY := OverlapY(b1, b2);
      if overlapY <= 0.0 then None
      else if overlapX < overlapY then
        Some(Contact(if delta.x > 0.0 then Vec2(1.0, 0.0) else Vec2(-1.0, 0.0), overlapX))
      else
        Some(Contact(if delta.y > 0.0 then Vec2(0.0, 1.0) else Vec2(0.0, -1.0), overlapY))
  }

  /** The component of the relative velocity along n; negative when approaching. */
  function VelAlongNormal(b1: Body, b2: Body, n: Vec2): real {
    Dot(Sub(b2.velocity, b1.velocity), n)
  }

  /** The impulse magnitude j = -(1 + min(e1, e2)) * velAlongNormal / invMassSum:
      shared by the two bodies in proportion to their inverse masses, it changes
      their relative normal velocity by exactly -(1 + e) * velAlongNormal. */
  function ImpulseMagnitude(b1: Body, b2: Body, n: Vec2): real
    requires b1.InverseMass() + b2.InverseMass() > 0.0
  {
    var restitution := Min(b1.restitution, b2.restitution);
    -(1.0 + restitution) * VelAlongNormal(b1, b2, n) / (b1.InverseMass() + b2.InverseMass())
  }

  lemma ImpulseShared(b1: Body, b2: Body, n: Vec2)
    requires b1.InverseMass() + b2.InverseMass() > 0.0
    ensures ImpulseMagnitude(b1, b2, n) * (b1.InverseMass() + b2.InverseMass())
            == -(1.0 + Min(b1.restitution, b2.restitution)) * VelAlongNormal(b1, b2, n)
  {
  }

  /** The velocities after the impulse step: changed only when the bodies approach
      along n, and then by equal and opposite impulses weighted by inverse mass. */
  function ResolvedVelocities(b1: Body, b2: Body, n: Vec2): (r: (Vec2, Vec2))
    requires b1.InverseMass() + b2.InverseMass() > 0.0
    ensures VelAlongNormal(b1, b2, n) >= 0.0 ==> r == (b1.velocity, b2.velocity)
    ensures VelAlongNormal(b1, b2, n) < 0.0 ==>
              r.0 == Sub(b1.velocity, Scale(b1.InverseMass(), Scale(ImpulseMagnitude(b1, b2, n), n))) &&
              r.1 == Add(b2.velocity, Scale(b2.InverseMass(), Scale(ImpulseMagnitude(b1, b2, n), n)))
    ensures b1.InverseMass() == 0.0 ==> r.0 == b1.velocity
    ensures b2.InverseMass() == 0.0 ==> r.1 == b2.velocity
  {
    var invMass1 := b1.InverseMass();
    var invMass2 := b2.InverseMass();
    if VelAlongNormal(b1, b2, n) < 0.0 then
      var impulse := Scale(ImpulseMagnitude(b1, b2, n), n);
      (Sub(b1.velocity, Scale(invMass1, impulse)), Add(b2.velocity, Scale(invMass2, impulse)))
    else
      (b1.velocity, b2.velocity)
  }

  /** The correction magnitude max(p - slop, 0) / invMassSum * percent: shared by
      the bodies in proportion to their inverse masses, it separates them by
      percent of the penetration beyond the slop. */
  function CorrectionMagnitude(b1: Body, b2: Body, penetration: real): (m: real)
    requires b1.InverseMass() + b2.InverseMass() > 0.0
    ensures m >= 0.0
    ensures penetration <= Slop ==> m == 0.0
  {
    var invMassSum := b1.InverseMass() + b2.InverseMass();
    Max(penetration - Slop, 0.0) / invMassSum * Percent
  }

  lemma CorrectionShared(b1: Body, b2: Body, penetration: real)
    requires b1.InverseMass() + b2.InverseMass() > 0.0
    ensures CorrectionMagnitude(b1, b2, penetration) * (b1.InverseMass() + b2.InverseMass())
            == Percent * Max(penetration - Slop, 0.0)
  {
  }

  /** The positions after positional correction along the contact normal. */
  function CorrectedPositions(b1: Body, b2: Body, c: Contact): (r: (Vec2, Vec2))
    requires b1.InverseMass() + b2.InverseMass() > 0.0
    ensures c.penetration <= Slop ==> r == (b1.position, b2.position)
    ensures b1.InverseMass() == 0.0 ==> r.0 == b1.position
    ensures b2.InverseMass() == 0.0 ==> r.1 == b2.position
    ensures c.normal.x == 0.0 ==> r.0.x == b1.position.x && r.1.x == b2.position.x
    ensures c.normal.y == 0.0 ==> r.0.y == b1.position.y && r.1.y == b2.position.y
  {
    var correction := Scale(CorrectionMagnitude(b1, b2, c.penetration), c.normal);
    (Sub(b1.position, Scale(b1.InverseMass(), correction)),
     Add(b2.position, Scale(b2.InverseMass(), correction)))
  }

  /** The conditions under which ResolveCollision changes anything at all. */
  predicate Engaged(b1: Body, b2: Body) {
    b1.allowCollision && b2.allowCollision && ContactOf(b1, b2).Some? &&
    b1.InverseMass() + b2.InverseMass() > 0.0
  }

  /** The two bodies after ResolveCollision. */
  function Resolved(b1: Body, b2: Body): (r: (Body, Body))
    ensures r.0 == b1.(position := r.0.position, velocity := r.0.velocity)
    ensures r.1 == b2.(position := r.1.position, velocity := r.1.velocity)
    ensures !Engaged(b1, b2) ==> r == (b1, b2)
    ensures Engaged(b1, b2) ==>
              (r.0.velocity, r.1.velocity) == ResolvedVelocities(b1, b2, ContactOf(b1, b2).value.normal) &&
              (r.0.position, r.1.position) == CorrectedPositions(b1, b2, ContactOf(b1, b2).value)
  {
    if !b1.allowCollision || !b2.allowCollision then (b1, b2)
    else
      match ContactOf(b1, b2)
      case None => (b1, b2)
      case Some(c) =>
        if b1.InverseMass() + b2.InverseMass() <= 0.0 then (b1, b2)
        else
          var v := ResolvedVelocities(b1, b2, c.normal);
          var p := CorrectedPositions(b1, b2, c);
          (b1.(velocity := v.0, position := p.0), b2.(velocity := v.1, position := p.1))
  }

  /** After an approaching contact the relative normal velocity is the old one
      reversed and scaled by the smaller restitution. */
  lemma RestitutionLaw(b1: Body, b2: Body, n: Vec2)
    requires b1.InverseMass() + b2.InverseMass() > 0.0
    requires Dot(n, n) == 1.0
    requires VelAlongNormal(b1, b2, n) < 0.0
    ensures Dot(Sub(ResolvedVelocities(b1, b2, n).1, ResolvedVelocities(b1, b2, n).0), n)
            == -Min(b1.restitution, b2.restitution) * VelAlongNormal(b1, b2, n)
  {
    var r := ResolvedVelocities(b1, b2, n);
    var i1, i2 := b1.InverseMass(), b2.InverseMass();
    var j := ImpulseMagnitude(b1, b2, n);
    ImpulseShared(b1, b2, n);
    NewRelative(b1.velocity, b2.velocity, n, i1, i2, j);
    DotAddScale(Sub(b2.velocity, b1.velocity), n, j * (i1 + i2));
  }

  /** The change of relative velocity made by the two opposite impulses. */
  lemma NewRelative(v1: Vec2, v2: Vec2, n: Vec2, i1: real, i2: real, j: real)
    ensures Sub(Add(v2, Scale(i2, Scale(j, n))), Sub(v1, Scale(i1, Scale(j, n))))
            == Add(Sub(v2, v1), Scale(j * (i1 + i2), n))
  {
    assert i2 * (j * n.x) + i1 * (j * n.x) == (j * (i1 + i2)) * n.x;
    assert i2 * (j * n.y) + i1 * (j * n.y) == (j * (i1 + i2)) * n.y;
  }

  lemma DotAddScale(a: Vec2, n: Vec2, k: real)
    requires Dot(n, n) == 1.0
    ensures Dot(Add(a, Scale(k, n)), n) == Dot(a, n) + k
  {
    assert Dot(Scale(k, n), n) == k * Dot(n, n);
  }

  /** Momentum is conserved between two bodies of finite positive mass. */
  lemma MomentumConserved(b1: Body, b2: Body, n: Vec2)
    requires b1.mass.Finite? && b1.mass.value > 0.0
    requires b2.mass.Finite? && b2.mass.value > 0.0
    ensures Add(Scale(b1.mass.value, ResolvedVelocities(b1, b2, n).0),
                Scale(b2.mass.value, ResolvedVelocities(b1, b2, n).1))
            == Add(Scale(b1.mass.value, b1.velocity), Scale(b2.mass.value, b2.velocity))
  {
    InverseTimesMass(b1.mass);
    InverseTimesMass(b2.mass);
    if VelAlongNormal(b1, b2, n) < 0.0 {
      var impulse := Scale(ImpulseMagnitude(b1, b2, n), n);
      WeightedChange(b1.mass.value, b1.InverseMass(), b1.velocity, impulse, -1.0);
      WeightedChange(b2.mass.value, b2.InverseMass(), b2.velocity, impulse, 1.0);
    }
  }

  /** m * (v + s * inv * J) == m * v + s * J when m * inv == 1. */
  lemma WeightedChange(m: real, inv: real, v: Vec2, impulse: Vec2, s: real)
    requires inv * m == 1.0
    requires s == 1.0 || s == -1.0
    ensures s == -1.0 ==> Scale(m, Sub(v, Scale(inv, impulse))) == Sub(Scale(m, v), impulse)
    ensures s == 1.0 ==> Scale(m, Add(v, Scale(inv, impulse))) == Add(Scale(m, v), impulse)
  {
    assert m * (inv * impulse.x) == (inv * m) * impulse.x;
    assert m * (inv * impulse.y) == (inv * m) * impulse.y;
  }

  /** The correction moves the bodies apart along the normal by percent of the
      penetration beyond the slop, whatever the split between them. */
  lemma CorrectionSeparates(b1: Body, b2: Body, c: Contact)
    requires b1.InverseMass() + b2.InverseMass() > 0.0
    ensures Sub(CorrectedPositions(b1, b2, c).1, CorrectedPositions(b1, b2, c).0)
            == Add(Sub(b2.position, b1.position), Scale(Percent * Max(c.penetration - Slop, 0.0), c.normal))
  {
    var m := CorrectionMagnitude(b1, b2, c.penetration);
    CorrectionShared(b1, b2, c.penetration);
    SplitMove(b1.position, b2.position, c.normal, m, b1.InverseMass(), b2.InverseMass());
  }

  lemma SplitMove(p1: Vec2, p2: Vec2, n: Vec2, m: real, i1: real, i2: real)
    ensures Sub(Add(p2, Scale(i2, Scale(m, n))), Sub(p1, Scale(i1, Scale(m, n))))
            == Add(Sub(p2, p1), Scale(m * (i1 + i2), n))
  {
  }

  /** The correction keeps the centre of mass of two finite bodies where it was. */
  lemma CorrectionKeepsCentreOfMass(b1: Body, b2: Body, c: Contact)
    requires b1.mass.Finite? && b1.mass.value > 0.0
    requires b2.mass.Finite? && b2.mass.value > 0.0
    ensures Add(Scale(b1.mass.value, CorrectedPositions(b1, b2, c).0),
                Scale(b2.mass.value, CorrectedPositions(b1, b2, c).1))
            == Add(Scale(b1.mass.value, b1.position), Scale(b2.mass.value, b2.position))
  {
    var correction := Scale(CorrectionMagnitude(b1, b2, c.penetration), c.normal);
    InverseTimesMass(b1.mass);
    InverseTimesMass(b2.mass);
    WeightedChange(b1.mass.value, b1.InverseMass(), b1.position, correction, -1.0);
    WeightedChange(b2.mass.value, b2.InverseMass(), b2.position, correction, 1.0);
  }

  /** Two bodies of equal inverse mass meeting with restitution 1 exchange the
      components of their velocities along the normal (Newton's cradle). */
  lemma EqualMassElasticSwap(b1: Body, b2: Body, n: Vec2)
    requires b1.InverseMass() == b2.InverseMass() > 0.0
    requires Min(b1.restitution, b2.restitution) == 1.0
    requires Dot(n, n) == 1.0
    requires VelAlongNormal(b1, b2, n) < 0.0
    ensures Dot(ResolvedVelocities(b1, b2, n).0, n) == Dot(b2.velocity, n)
    ensures Dot(ResolvedVelocities(b1, b2, n).1, n) == Dot(b1.velocity, n)
  {
    var inv := b1.InverseMass();
    var j := ImpulseMagnitude(b1, b2, n);
    ImpulseShared(b1, b2, n);
    var van := VelAlongNormal(b1, b2, n);
    assert j * (inv + inv) == -2.0 * van;
    DotSub(b1.velocity, b2.velocity, n);
    DotSubScale(b1.velocity, n, inv * j);
    DotAddScale(b2.velocity, n, inv * j);
    assert Scale(inv, Scale(j, n)) == Scale(inv * j, n);
  }

  lemma DotSub(a: Vec2, b: Vec2, n: Vec2)
    ensures Dot(Sub(b, a), n) == Dot(b, n) - Dot(a, n)
  {
  }

  lemma DotSubScale(a: Vec2, n: Vec2, k: real)
    requires Dot(n, n) == 1.0
    ensures Dot(Sub(a, Scale(k, n)), n) == Dot(a, n) - k
  {
    assert Dot(Scale(k, n), n) == k * Dot(n, n);
  }

  /** The handler resolves pair p: both bodies collide and their boxes meet. */
  predicate Collides(s: seq<Body>, p: Pair) {
    p.0 < p.1 < |s| && s[p.0].allowCollision && s[p.1].allowCollision &&
    DetectCollision(s[p.0], s[p.1])
  }

  /** The state change of one visited pair (i, j) of the handler's list. */
  function VisitPair(s: seq<Body>, p: Pair): (r: seq<Body>)
    ensures |r| == |s|
  {
    if Collides(s, p) then
      var r := Resolved(s[p.0], s[p.1]);
      s[p.0 := r.0][p.1 := r.1]
    else
      s
  }

  /** The list after visiting the pairs ps in order. */
  function VisitAll(s: seq<Body>, ps: seq<Pair>): (r: seq<Body>)
    ensures |r| == |s|
    decreases |ps|
  {
    if ps == [] then s else VisitAll(VisitPair(s, ps[0]), ps[1..])
  }

  /** The list after CollisionHandler. */
  function Handled(s: seq<Body>): (r: seq<Body>)
    ensures |r| == |s|
  {
    VisitAll(s, AllPairs(|s|))
  }

  /** What the handler may do to a list: the build of every body stays, a body
      that does not collide is untouched, and an immovable body keeps its
      position and velocity. */
  predicate Kept(s: seq<Body>, t: seq<Body>) {
    |s| == |t| &&
    forall k :: 0 <= k < |s| ==>
      t[k].SameBuild(s[k]) && t[k].forces == s[k].forces &&
      (!s[k].allowCollision ==> t[k] == s[k]) &&
      (s[k].InverseMass() == 0.0 ==> t[k].position == s[k].position && t[k].velocity == s[k].velocity)
  }

  lemma VisitPairKept(s: seq<Body>, p: Pair)
    ensures Kept(s, VisitPair(s, p))
  {
  }

  lemma {:induction false} VisitAllKept(s: seq<Body>, ps: seq<Pair>)
    ensures Kept(s, VisitAll(s, ps))
    decreases |ps|
  {
    if ps != [] {
      VisitPairKept(s, ps[0]);
      VisitAllKept(VisitPair(s, ps[0]), ps[1..]);
    }
  }

  /** The handler never changes a non-collidable body, never moves an immovable
      one, and changes nothing but positions and velocities. */
  lemma HandledKept(s: seq<Body>)
    ensures Kept(s, Handled(s))
  {
    VisitAllKept(s, AllPairs(|s|));
  }

  /** A row whose first body does not collide changes nothing: the handler's
      early `continue` on the outer index. */
  lemma {:induction false} RowOfNonCollidable(s: seq<Body>, i: nat, j: nat, rest: seq<Pair>)
    requires i < |s| && !s[i].allowCollision
    ensures VisitAll(s, Row(i, j, |s|) + rest) == VisitAll(s, rest)
    decreases |s| - j
  {
    if j < |s| {
      var later := Row(i, j + 1, |s|) + rest;
      RowUnfold(i, j, |s|, rest);
      VisitAllCons(s, (i, j), later);
      SkipPair(s, (i, j));
      RowOfNonCollidable(s, i, j + 1, rest);
    } else {
      assert Row(i, j, |s|) + rest == rest;
    }
  }

  lemma VisitAllCons(s: seq<Body>, p: Pair, rest: seq<Pair>)
    ensures VisitAll(s, [p] + rest) == VisitAll(VisitPair(s, p), rest)
  {
    assert ([p] + rest)[0] == p && ([p] + rest)[1..] == rest;
  }

  lemma ResolvePair(s: seq<Body>, p: Pair)
    requires Collides(s, p)
    ensures VisitPair(s, p) == s[p.0 := Resolved(s[p.0], s[p.1]).0][p.1 := Resolved(s[p.0], s[p.1]).1]
  {
  }

  /** A list that differs from s only at positions i and j. */
  lemma UpdateTwo<T>(t: seq<T>, s: seq<T>, i: nat, j: nat)
    requires |t| == |s| && i < |s| && j < |s|
    requires forall k :: 0 <= k < |s| && k != i && k != j ==> t[k] == s[k]
    ensures t == s[i := t[i]][j := t[j]]
  {
  }

  lemma SkipPair(s: seq<Body>, p: Pair)
    requires !Collides(s, p)
    ensures VisitPair(s, p) == s
  {
  }

  /** ResolveCollision on two bodies. The same body passed twice is left as it
      was: it has no velocity relative to itself, and the correction it applies
      in the first role it takes back in the second. */
  method ResolveCollision(o1: RigidBody, o2: RigidBody)
    modifies o1, o2
    ensures o1 != o2 ==> (o1.State(), o2.State()) == Resolved(old(o1.State()), old(o2.State()))
    ensures o1 == o2 ==> o1.State() == old(o1.State())
  {
    if !o1.allowCollision || !o2.allowCollision {
      return;
    }
    var contact := ContactOf(o1.State(), o2.State());
    if contact.None? {
      return;
    }
    var invMassSum := o1.InverseMass() + o2.InverseMass();
    if invMassSum <= 0.0 {
      return;
    }
    ApplyImpulse(o1, o2, contact.value.normal);
    CorrectPositions(o1, o2, contact.value);
  }

  /** The impulse step of ResolveCollision (velocities only). */
  method ApplyImpulse(o1: RigidBody, o2: RigidBody, normal: Vec2)
    requires o1.InverseMass() + o2.InverseMass() > 0.0
    modifies o1`velocity, o2`velocity
    ensures o1 != o2 ==> (o1.velocity, o2.velocity) == ResolvedVelocities(old(o1.State()), old(o2.State()), normal)
    ensures o1 == o2 ==> o1.velocity == old(o1.velocity)
  {
    if o1 == o2 {
      NoRelativeVelocity(o1.State(), normal);
    }
    if VelAlongNormal(o1.State(), o2.State(), normal) < 0.0 {
      var impulse := Scale(ImpulseMagnitude(o1.State(), o2.State(), normal), normal);
      o1.velocity := Sub(o1.velocity, Scale(o1.InverseMass(), impulse));
      o2.velocity := Add(o2.velocity, Scale(o2.InverseMass(), impulse));
    }
  }

  /** The positional-correction step of ResolveCollision (positions only). */
  method CorrectPositions(o1: RigidBody, o2: RigidBody, contact: Contact)
    requires o1.InverseMass() + o2.InverseMass() > 0.0
    modifies o1`position, o2`position
    ensures o1 != o2 ==> (o1.position, o2.position) == CorrectedPositions(old(o1.State()), old(o2.State()), contact)
    ensures o1 == o2 ==> o1.position == old(o1.position)
  {
    var correctionMag := CorrectionMagnitude(o1.State(), o2.State(), contact.penetration);
    var correction := Scale(correctionMag, contact.normal);
    o1.position := Sub(o1.position, Scale(o1.InverseMass(), correction));
    o2.position := Add(o2.position, Scale(o2.InverseMass(), correction));
    if o1 == o2 {
      SubThenAdd(old(o1.position), Scale(o1.InverseMass(), correction));
    }
  }

  lemma NoRelativeVelocity(b: Body, n: Vec2)
    ensures VelAlongNormal(b, b, n) == 0.0
  {
  }

  lemma SubThenAdd(p: Vec2, d: Vec2)
    ensures Add(Sub(p, d), d) == p
  {
  }

  /** One turn of the handler's inner loop: resolve the pair (i, j) when both
      collide and their boxes meet. */
  method VisitPairOf(bodies: seq<RigidBody>, i: nat, j: nat)
    requires Distinct(bodies) && i < j < |bodies|
    modifies bodies[i], bodies[j]
    ensures Snapshot(bodies) == VisitPair(old(Snapshot(bodies)), (i, j))
  {
    ghost var before := Snapshot(bodies);
    if bodies[i].allowCollision && bodies[j].allowCollision &&
       DetectCollision(bodies[i].State(), bodies[j].State()) {
      ResolveCollision(bodies[i], bodies[j]);
      ghost var after := Snapshot(bodies);
      assert (after[i], after[j]) == Resolved(before[i], before[j]);
      forall k | 0 <= k < |bodies| && k != i && k != j
        ensures after[k] == before[k]
      {
        assert bodies[k] != bodies[i] && bodies[k] != bodies[j];
      }
      UpdateTwo(after, before, i, j);
      assert Collides(before, (i, j));
      ResolvePair(before, (i, j));
    } else {
      SkipPair(before, (i, j));
    }
  }

  /** CollisionHandler over a list of distinct bodies. */
  method CollisionHandler(bodies: seq<RigidBody>)
    requires Distinct(bodies)
    modifies bodies
    ensures Snapshot(bodies) == Handled(old(Snapshot(bodies)))
  {
    ghost var s0 := Snapshot(bodies);
    var n := |bodies|;
    var i := 0;
    while i < n - 1
      invariant 0 <= i <= n
      invariant VisitAll(Snapshot(bodies), PairsFrom(i, n)) == Handled(s0)
    {
      assert PairsFrom(i, n) == Row(i, i + 1, n) + PairsFrom(i + 1, n);
      if !bodies[i].allowCollision {
        RowOfNonCollidable(Snapshot(bodies), i, i + 1, PairsFrom(i + 1, n));
        i := i + 1;
        continue;
      }
      var j := i + 1;
      while j < n
        invariant i + 1 <= j <= n
        invariant VisitAll(Snapshot(bodies), Row(i, j, n) + PairsFrom(i + 1, n)) == Handled(s0)
      {
        ghost var later := Row(i, j + 1, n) + PairsFrom(i + 1, n);
        RowUnfold(i, j, n, PairsFrom(i + 1, n));
        assert ([(i, j)] + later)[0] == (i, j) && ([(i, j)] + later)[1..] == later;
        VisitPairOf(bodies, i, j);
        j := j + 1;
      }
      assert Row(i, n, n) + PairsFrom(i + 1, n) == PairsFrom(i + 1, n);
      i := i + 1;
    }
  }
}
