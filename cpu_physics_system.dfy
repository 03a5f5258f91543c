// The self-contained CPU physics system: a table of all-in-one rigid-body
// records keyed by entity id, a registry of named layers with lists of the
// layers each may collide with, and an update that integrates every body and
// then resolves each overlapping pair of boxes in place, pair after pair.
module CpuPhysics {
  import opened Common
  import opened Components
  import Pairs
  import EcsCollision
  import opened LayerLists

  const DefaultMaxRigidBodies: nat := 512
  const DefaultGravity := Vec3(0.0, -9.81, 0.0)

  /** The per-step velocity damping. */
  const Damping: real := 0.999

  // ------------------------------------------------------------ bodies

  /**
   * The record `createRigidBody` stores: the given position with identity
   * rotation and unit scale, the mass rule, restitution 0.5 and friction 0.3,
   * an enabled box of the given size, and the given layer.
   */
  function NewBody(id: nat, position: Vec3, width: real, height: real, depth: real, mass: real,
                   layer: nat): RigidBodyRecord
  {
    var isStatic := mass <= 0.0;
    RigidBodyRecord(
      id,
      Transform(position, IdentityQuat, UnitScale),
      Physics(Zero, Zero, mass, InverseMassOf(mass), 0.5, 0.3, isStatic, !isStatic),
      BoxCollider(width, height, depth, true),
      layer,
      true)
  }

  /**
   * A new body is at rest; it is static exactly when it has no inverse mass,
   * which is then the reciprocal of its mass; it falls exactly when it is not
   * static; and it carries an enabled collider of the requested size.
   */
  lemma NewBodyMeaning(id: nat, position: Vec3, width: real, height: real, depth: real, mass: real,
                       layer: nat)
    ensures var b := NewBody(id, position, width, height, depth, mass, layer);
            b.entityId == id && b.layer == layer && b.transform.position == position
            && b.physics.velocity == Zero && b.physics.mass == mass
    ensures var b := NewBody(id, position, width, height, depth, mass, layer);
            (b.physics.isStatic <==> b.physics.invMass == 0.0)
            && (!b.physics.isStatic ==> b.physics.invMass * mass == 1.0)
            && b.physics.useGravity == !b.physics.isStatic
    ensures var b := NewBody(id, position, width, height, depth, mass, layer);
            b.hasCollider && b.collider.enabled
            && b.collider.Dims() == Vec3(width, height, depth)
  {
    if mass > 0.0 {
      InverseMassIsReciprocal(mass);
    }
  }

  // ------------------------------------------------------------ integration

  /** The velocity after gravity: only bodies that use it and can move gain `g·dt`. */
  function GravityVelocity(p: Physics, g: Vec3, dt: real): Vec3
  {
    if p.useGravity && p.invMass > 0.0 then p.velocity.Add(g.Scale(dt)) else p.velocity
  }

  /**
   * `integratePhysics`: a static body is left alone; any other gains gravity,
   * moves by its new velocity for `dt`, and then has that velocity damped.
   */
  function Integrated(b: RigidBodyRecord, g: Vec3, dt: real): RigidBodyRecord
  {
    if b.physics.isStatic then b
    else
      var v := GravityVelocity(b.physics, g, dt);
      b.(transform := b.transform.(position := b.transform.position.Add(v.Scale(dt))),
         physics := b.physics.(velocity := v.Scale(Damping)))
  }

  /**
   * Integration changes only a moving body's position and velocity; the
   * position moves by the undamped velocity, which is the new velocity
   * divided by the damping factor.
   */
  lemma IntegratedMeaning(b: RigidBodyRecord, g: Vec3, dt: real)
    ensures b.physics.isStatic ==> Integrated(b, g, dt) == b
    ensures var r := Integrated(b, g, dt);
            r == b.(transform := b.transform.(position := r.transform.position),
                    physics := b.physics.(velocity := r.physics.velocity))
    ensures var r := Integrated(b, g, dt);
            !b.physics.isStatic ==>
              r.transform.position == b.transform.position.Add(r.physics.velocity.Scale(dt / Damping))
    ensures var r := Integrated(b, g, dt);
            !b.physics.isStatic ==>
              r.physics.velocity.Scale(1.0 / Damping)
                == if b.physics.useGravity && b.physics.invMass > 0.0
                   then b.physics.velocity.Add(g.Scale(dt)) else b.physics.velocity
  {
    if !b.physics.isStatic {
      var v := GravityVelocity(b.physics, g, dt);
      UndoDamping(v, dt);
    }
  }

  /** Damping by 0.999 and scaling by `dt / 0.999` is scaling by `dt`. */
  lemma UndoDamping(v: Vec3, dt: real)
    ensures v.Scale(Damping).Scale(dt / Damping) == v.Scale(dt)
    ensures v.Scale(Damping).Scale(1.0 / Damping) == v
  {
    assert (v.x * Damping) * (dt / Damping) == v.x * dt;
    assert (v.y * Damping) * (dt / Damping) == v.y * dt;
    assert (v.z * Damping) * (dt / Damping) == v.z * dt;
  }

  /** Every body of the table integrated; the table's iteration order does not matter. */
  function IntegrateAll(bodies: map<nat, RigidBodyRecord>, g: Vec3, dt: real): (r: map<nat, RigidBodyRecord>)
    ensures r.Keys == bodies.Keys
  {
    map id | id in bodies :: Integrated(bodies[id], g, dt)
  }

  // ------------------------------------------------------------ narrow phase

  /** `checkBoxBoxCollision`: the inclusive overlap of the boxes, which ignores the transform's scale. */
  predicate CheckBoxBox(b1: RigidBodyRecord, b2: RigidBodyRecord)
  {
    var h1 := b1.collider.Dims().Scale(0.5);
    var h2 := b2.collider.Dims().Scale(0.5);
    var p1 := b1.transform.position;
    var p2 := b2.transform.position;
    (p1.x - h1.x <= p2.x + h2.x && p1.x + h1.x >= p2.x - h2.x)
    && (p1.y - h1.y <= p2.y + h2.y && p1.y + h1.y >= p2.y - h2.y)
    && (p1.z - h1.z <= p2.z + h2.z && p1.z + h1.z >= p2.z - h2.z)
  }

  /** The per-axis penetrations `resolveCollision` computes: half the summed sizes less the centre distance. */
  function Penetrations(b1: RigidBodyRecord, b2: RigidBodyRecord): Vec3
  {
    var d := b1.transform.position.Sub(b2.transform.position);
    Vec3((b1.collider.width + b2.collider.width) * 0.5 - Abs(d.x),
         (b1.collider.height + b2.collider.height) * 0.5 - Abs(d.y),
         (b1.collider.depth + b2.collider.depth) * 0.5 - Abs(d.z))
  }

  /**
   * The boxes overlap exactly when no axis has a negative penetration; the
   * test does not depend on the order of the bodies nor on their scales.
   */
  lemma CheckBoxBoxMeaning(b1: RigidBodyRecord, b2: RigidBodyRecord)
    ensures var p := Penetrations(b1, b2);
            CheckBoxBox(b1, b2) <==> p.x >= 0.0 && p.y >= 0.0 && p.z >= 0.0
    ensures CheckBoxBox(b1, b2) == CheckBoxBox(b2, b1)
    ensures forall s1: Vec3, s2: Vec3 ::
              CheckBoxBox(b1.(transform := b1.transform.(scale := s1)),
                          b2.(transform := b2.transform.(scale := s2))) == CheckBoxBox(b1, b2)
  {
  }

  /** The axis of least penetration, ties going to X, then Y, then Z. */
  function ContactAxis(b1: RigidBodyRecord, b2: RigidBodyRecord): nat
  {
    MinAxis(Penetrations(b1, b2))
  }

  /** The unit normal on the contact axis: +1 when body 1 lies above body 2 on it, otherwise -1. */
  function ContactNormal(b1: RigidBodyRecord, b2: RigidBodyRecord): Vec3
  {
    var m := ContactAxis(b1, b2);
    var d := b1.transform.position.Sub(b2.transform.position);
    AxisVec(m, if d.At(m) > 0.0 then 1.0 else -1.0)
  }

  /** The separation: the least penetration. */
  function Separation(b1: RigidBodyRecord, b2: RigidBodyRecord): real
  {
    Penetrations(b1, b2).At(ContactAxis(b1, b2))
  }

  /** The contact axis is the first axis of least penetration, whose penetration is the separation. */
  lemma ContactAxisMeaning(b1: RigidBodyRecord, b2: RigidBodyRecord)
    ensures var m, p := ContactAxis(b1, b2), Penetrations(b1, b2);
            m < 3 && (forall k :: 0 <= k < 3 ==> p.At(m) <= p.At(k))
            && (forall k :: 0 <= k < m ==> p.At(m) < p.At(k))
            && Separation(b1, b2) == p.At(m)
  {
  }

  /**
   * The contact normal has length one, is zero off the contact axis, and
   * points from body 2 to body 1 on that axis.
   */
  lemma ContactNormalMeaning(b1: RigidBodyRecord, b2: RigidBodyRecord)
    ensures ContactNormal(b1, b2).Dot(ContactNormal(b1, b2)) == 1.0
    ensures var m := ContactAxis(b1, b2);
            (ContactNormal(b1, b2).At(m) == 1.0 <==> b1.transform.position.At(m) > b2.transform.position.At(m))
    ensures var m, n := ContactAxis(b1, b2), ContactNormal(b1, b2);
            forall k :: 0 <= k < 3 && k != m ==> n.At(k) == 0.0
  {
    var m := ContactAxis(b1, b2);
    var d := b1.transform.position.Sub(b2.transform.position);
    AxisVecMeaning(m, if d.At(m) > 0.0 then 1.0 else -1.0);
    assert d.At(m) == b1.transform.position.At(m) - b2.transform.position.At(m);
  }

  /** Overlapping boxes have a non-negative separation. */
  lemma OverlapSeparation(b1: RigidBodyRecord, b2: RigidBodyRecord)
    requires CheckBoxBox(b1, b2)
    ensures Separation(b1, b2) >= 0.0
  {
    CheckBoxBoxMeaning(b1, b2);
  }

  // ------------------------------------------------------------ resolution

  /** Body `b` moved by `k` along `n`. */
  function Pushed(b: RigidBodyRecord, n: Vec3, k: real): RigidBodyRecord
  {
    b.(transform := b.transform.(position := b.transform.position.Add(n.Scale(k))))
  }

  /** Body `b` with impulse `k` along `n` added to its velocity. */
  function Kicked(b: RigidBodyRecord, n: Vec3, k: real): RigidBodyRecord
  {
    b.(physics := b.physics.(velocity := b.physics.velocity.Add(n.Scale(k))))
  }

  /** A body's part of the separation, in proportion to its inverse mass. */
  function Portion(invMass: real, total: real, sep: real): real
    requires total != 0.0
  {
    sep * (invMass / total)
  }

  /**
   * `resolveCollision`: when either body can move, each is pushed apart
   * along the contact normal by its inverse-mass share of the whole
   * separation; then, unless the bodies already separate along the normal,
   * a restitution impulse with the lesser restitution is split between
   * them by inverse mass.
   */
  function Resolve(b1: RigidBodyRecord, b2: RigidBodyRecord): (RigidBodyRecord, RigidBodyRecord)
  {
    ResolveAlong(b1, b2, ContactNormal(b1, b2), Separation(b1, b2))
  }

  /** The response of `resolveCollision` for a given normal `n` and separation `sep`. */
  function ResolveAlong(b1: RigidBodyRecord, b2: RigidBodyRecord, n: Vec3, sep: real): (RigidBodyRecord, RigidBodyRecord)
  {
    var total := b1.physics.invMass + b2.physics.invMass;
    if total <= 0.0 then (b1, b2)
    else
      var m1 := Pushed(b1, n, Portion(b1.physics.invMass, total, sep));
      var m2 := Pushed(b2, n, -Portion(b2.physics.invMass, total, sep));
      var e := MinR(b1.physics.restitution, b2.physics.restitution);
      var vn := EcsCollision.NormalVelocity(b1.physics, b2.physics, n);
      if vn > 0.0 then (m1, m2)
      else
        var j := EcsCollision.ImpulseMagnitude(e, vn, total);
        (Kicked(m1, n, EcsCollision.Share(j, b1.physics)), Kicked(m2, n, -EcsCollision.Share(j, b2.physics)))
  }

  /** Resolution changes only positions and velocities, and nothing at all when neither body can move. */
  lemma ResolveFrame(b1: RigidBodyRecord, b2: RigidBodyRecord)
    ensures var r := Resolve(b1, b2);
            r.0 == b1.(transform := b1.transform.(position := r.0.transform.position),
                       physics := b1.physics.(velocity := r.0.physics.velocity))
            && r.1 == b2.(transform := b2.transform.(position := r.1.transform.position),
                          physics := b2.physics.(velocity := r.1.physics.velocity))
    ensures b1.physics.invMass + b2.physics.invMass <= 0.0 ==> Resolve(b1, b2) == (b1, b2)
  {
  }

  /** Moving along a unit axis vector by `k` and back by `-k'` widens the gap along it by `k + k'`. */
  lemma GapAfterPushes(p1: Vec3, p2: Vec3, n: Vec3, k1: real, k2: real)
    requires n.Dot(n) == 1.0
    ensures p1.Add(n.Scale(k1)).Sub(p2.Add(n.Scale(-k2))).Dot(n) == p1.Sub(p2).Dot(n) + k1 + k2
  {
    EcsCollision.DotAddScale(p1, n, k1);
    EcsCollision.DotAddScale(p2, n, -k2);
    EcsCollision.DotOfSub(p1.Add(n.Scale(k1)), p2.Add(n.Scale(-k2)), n);
    EcsCollision.DotOfSub(p1, p2, n);
  }

  /** The two portions add up to the whole separation. */
  lemma PortionsSum(x: real, y: real, sep: real)
    requires x + y > 0.0
    ensures Portion(x, x + y, sep) + Portion(y, x + y, sep) == sep
  {
    EcsCollision.SharesSumToOne(x, y);
    assert sep * (x / (x + y)) + sep * (y / (x + y)) == sep * (x / (x + y) + y / (x + y));
  }

  /** Along a unit normal, the pushes widen the gap by the whole separation. */
  lemma ResolveAlongSeparates(b1: RigidBodyRecord, b2: RigidBodyRecord, n: Vec3, sep: real)
    requires b1.physics.invMass + b2.physics.invMass > 0.0 && n.Dot(n) == 1.0
    ensures var r := ResolveAlong(b1, b2, n, sep);
            r.0.transform.position.Sub(r.1.transform.position).Dot(n)
              == b1.transform.position.Sub(b2.transform.position).Dot(n) + sep
  {
    var total := b1.physics.invMass + b2.physics.invMass;
    var k1, k2 := Portion(b1.physics.invMass, total, sep), Portion(b2.physics.invMass, total, sep);
    GapAfterPushes(b1.transform.position, b2.transform.position, n, k1, k2);
    PortionsSum(b1.physics.invMass, b2.physics.invMass, sep);
    var r := ResolveAlong(b1, b2, n, sep);
    assert r.0.transform.position == b1.transform.position.Add(n.Scale(k1));
    assert r.1.transform.position == b2.transform.position.Add(n.Scale(-k2));
  }

  /**
   * When either body can move, resolution widens the bodies' gap along the
   * normal by the full separation, so that overlapping boxes end up
   * exactly touching on the contact axis.
   */
  lemma ResolveSeparates(b1: RigidBodyRecord, b2: RigidBodyRecord)
    requires b1.physics.invMass + b2.physics.invMass > 0.0
    ensures var r, n := Resolve(b1, b2), ContactNormal(b1, b2);
            r.0.transform.position.Sub(r.1.transform.position).Dot(n)
              == b1.transform.position.Sub(b2.transform.position).Dot(n) + Separation(b1, b2)
  {
    ContactNormalMeaning(b1, b2);
    ResolveAlongSeparates(b1, b2, ContactNormal(b1, b2), Separation(b1, b2));
  }

  /** Along a unit normal, the impulse turns an approaching normal velocity `vn` into `-e·vn`. */
  lemma ResolveAlongRestitution(b1: RigidBodyRecord, b2: RigidBodyRecord, n: Vec3, sep: real)
    requires b1.physics.invMass + b2.physics.invMass > 0.0 && n.Dot(n) == 1.0
    ensures var r := ResolveAlong(b1, b2, n, sep);
            var vn := EcsCollision.NormalVelocity(b1.physics, b2.physics, n);
            vn <= 0.0 ==>
              EcsCollision.NormalVelocity(r.0.physics, r.1.physics, n)
                == EcsCollision.Rebound(MinR(b1.physics.restitution, b2.physics.restitution), vn)
    ensures var r := ResolveAlong(b1, b2, n, sep);
            EcsCollision.NormalVelocity(b1.physics, b2.physics, n) > 0.0 ==>
              r.0.physics == b1.physics && r.1.physics == b2.physics
  {
    var vn := EcsCollision.NormalVelocity(b1.physics, b2.physics, n);
    if vn <= 0.0 {
      var e := MinR(b1.physics.restitution, b2.physics.restitution);
      var total := b1.physics.invMass + b2.physics.invMass;
      var j := EcsCollision.ImpulseMagnitude(e, vn, total);
      var r := ResolveAlong(b1, b2, n, sep);
      assert r.0.physics.velocity == b1.physics.velocity.Add(n.Scale(EcsCollision.Share(j, b1.physics)));
      assert r.1.physics.velocity == b2.physics.velocity.Add(n.Scale(-EcsCollision.Share(j, b2.physics)));
      KickedVelocities(b2.physics.velocity, n, EcsCollision.Share(j, b2.physics));
      EcsCollision.RelativeVelocityAfterImpulse(b1.physics, b2.physics, r.0.physics, r.1.physics, n, e, j);
    }
  }

  /** Adding `-k` along `n` is subtracting `k` along it. */
  lemma KickedVelocities(v: Vec3, n: Vec3, k: real)
    ensures v.Add(n.Scale(-k)) == v.Sub(n.Scale(k))
  {
  }

  /**
   * When either body can move and they approach (or rest) along the contact
   * normal, their relative normal velocity becomes `-e` times what it was,
   * with `e` the lesser restitution; when they already separate their
   * velocities are kept.
   */
  lemma ResolveRestitution(b1: RigidBodyRecord, b2: RigidBodyRecord)
    requires b1.physics.invMass + b2.physics.invMass > 0.0
    ensures var r, n := Resolve(b1, b2), ContactNormal(b1, b2);
            var vn := EcsCollision.NormalVelocity(b1.physics, b2.physics, n);
            vn <= 0.0 ==>
              EcsCollision.NormalVelocity(r.0.physics, r.1.physics, n)
                == EcsCollision.Rebound(MinR(b1.physics.restitution, b2.physics.restitution), vn)
    ensures var r, n := Resolve(b1, b2), ContactNormal(b1, b2);
            EcsCollision.NormalVelocity(b1.physics, b2.physics, n) > 0.0 ==>
              r.0.physics == b1.physics && r.1.physics == b2.physics
  {
    ContactNormalMeaning(b1, b2);
    ResolveAlongRestitution(b1, b2, ContactNormal(b1, b2), Separation(b1, b2));
  }

  /** A body without inverse mass (every static body the system creates) is neither moved nor kicked. */
  lemma ResolveKeepsImmovable(b1: RigidBodyRecord, b2: RigidBodyRecord)
    ensures b1.physics.invMass == 0.0 ==> Resolve(b1, b2).0 == b1
    ensures b2.physics.invMass == 0.0 ==> Resolve(b1, b2).1 == b2
  {
    var n, sep := ContactNormal(b1, b2), Separation(b1, b2);
    var total := b1.physics.invMass + b2.physics.invMass;
    if total > 0.0 {
      var j := EcsCollision.ImpulseMagnitude(MinR(b1.physics.restitution, b2.physics.restitution),
                                             EcsCollision.NormalVelocity(b1.physics, b2.physics, n), total);
      if b1.physics.invMass == 0.0 {
        assert Portion(b1.physics.invMass, total, sep) == 0.0;
        assert EcsCollision.Share(j, b1.physics) == 0.0;
      }
      if b2.physics.invMass == 0.0 {
        assert Portion(b2.physics.invMass, total, sep) == 0.0;
        assert EcsCollision.Share(j, b2.physics) == 0.0;
      }
    }
  }

  // ------------------------------------------------------------ the pair sweep

  /**
   * One iteration of the inner loop of `detectAndResolveCollisions`: bodies
   * whose layers interact and whose colliders are both present and enabled
   * are resolved in place when their boxes overlap.
   */
  function ResolvePair(bodies: map<nat, RigidBodyRecord>, layers: map<nat, PhysicsLayer>, a: nat, b: nat)
    : (r: map<nat, RigidBodyRecord>)
    ensures r.Keys == bodies.Keys
  {
    if !(a in bodies && b in bodies) then bodies
    else
      var b1, b2 := bodies[a], bodies[b];
      if !LayersInteract(layers, b1.layer, b2.layer) then bodies
      else if !b1.hasCollider || !b2.hasCollider || !b1.collider.enabled || !b2.collider.enabled then bodies
      else if !CheckBoxBox(b1, b2) then bodies
      else
        var res := Resolve(b1, b2);
        bodies[a := res.0][b := res.1]
  }

  /** The pairs resolved one after the other, the first pair first. */
  function Sweep(bodies: map<nat, RigidBodyRecord>, layers: map<nat, PhysicsLayer>, pairs: seq<(nat, nat)>)
    : (r: map<nat, RigidBodyRecord>)
    ensures r.Keys == bodies.Keys
    decreases |pairs|
  {
    if pairs == [] then bodies
    else
      var last := pairs[|pairs| - 1];
      ResolvePair(Sweep(bodies, layers, pairs[..|pairs| - 1]), layers, last.0, last.1)
  }

  /** `detectAndResolveCollisions`: every pair of the table's iteration order, in nested-loop order. */
  function DetectAndResolve(bodies: map<nat, RigidBodyRecord>, layers: map<nat, PhysicsLayer>, order: seq<nat>)
    : map<nat, RigidBodyRecord>
  {
    Sweep(bodies, layers, Pairs.AllPairs(order, EcsCollision.AnyPair()))
  }

  /** Body `v` is body `u` with at most its position and velocity changed. */
  ghost predicate SameButMotion(u: RigidBodyRecord, v: RigidBodyRecord)
  {
    v == u.(transform := u.transform.(position := v.transform.position),
            physics := u.physics.(velocity := v.physics.velocity))
  }

  /**
   * Table `v` has the bodies of `u` with at most their motion changed, and
   * every body without inverse mass is exactly as it was.
   */
  ghost predicate OnlyMotion(u: map<nat, RigidBodyRecord>, v: map<nat, RigidBodyRecord>)
  {
    v.Keys == u.Keys
    && (forall id :: id in u ==> SameButMotion(u[id], v[id]))
    && (forall id :: id in u && u[id].physics.invMass == 0.0 ==> v[id] == u[id])
  }

  lemma OnlyMotionTrans(u: map<nat, RigidBodyRecord>, v: map<nat, RigidBodyRecord>, w: map<nat, RigidBodyRecord>)
    requires OnlyMotion(u, v) && OnlyMotion(v, w)
    ensures OnlyMotion(u, w)
  {
    forall id | id in u ensures SameButMotion(u[id], w[id]) {
      assert SameButMotion(u[id], v[id]) && SameButMotion(v[id], w[id]);
    }
  }

  /** One pair step changes only the motion of movable bodies. */
  lemma ResolvePairOnlyMotion(bodies: map<nat, RigidBodyRecord>, layers: map<nat, PhysicsLayer>, a: nat, b: nat)
    requires a != b
    ensures OnlyMotion(bodies, ResolvePair(bodies, layers, a, b))
  {
    if a in bodies && b in bodies {
      ResolveFrame(bodies[a], bodies[b]);
      ResolveKeepsImmovable(bodies[a], bodies[b]);
    }
  }

  /**
   * Resolving every pair of distinct bodies changes only positions and
   * velocities, and never those of a body without inverse mass: ids,
   * layers, colliders, masses and static flags are kept.
   */
  lemma {:induction false} SweepOnlyMotion(bodies: map<nat, RigidBodyRecord>, layers: map<nat, PhysicsLayer>,
                                           pairs: seq<(nat, nat)>)
    requires forall k :: 0 <= k < |pairs| ==> pairs[k].0 != pairs[k].1
    ensures OnlyMotion(bodies, Sweep(bodies, layers, pairs))
    decreases |pairs|
  {
    if pairs == [] {
    } else {
      var init := pairs[..|pairs| - 1];
      var last := pairs[|pairs| - 1];
      SweepOnlyMotion(bodies, layers, init);
      ResolvePairOnlyMotion(Sweep(bodies, layers, init), layers, last.0, last.1);
      OnlyMotionTrans(bodies, Sweep(bodies, layers, init), Sweep(bodies, layers, pairs));
    }
  }

  /** The nested loop over a list without repetitions never pairs a body with itself. */
  lemma DistinctPairs(order: seq<nat>)
    requires NoDup(order)
    ensures var pairs := Pairs.AllPairs(order, EcsCollision.AnyPair());
            forall k :: 0 <= k < |pairs| ==> pairs[k].0 != pairs[k].1
  {
    var pairs := Pairs.AllPairs(order, EcsCollision.AnyPair());
    Pairs.AllPairsMembers(order, EcsCollision.AnyPair());
    forall k | 0 <= k < |pairs| ensures pairs[k].0 != pairs[k].1 {
      assert pairs[k] in pairs;
      var i, j :| 0 <= i < j < |order| && pairs[k] == (order[i], order[j]);
    }
  }

  /**
   * Bodies on layers that are not registered never collide: in particular
   * bodies left on the default layer 0, which no registry ever contains.
   */
  lemma {:induction false} UnregisteredLayersNeverCollide(bodies: map<nat, RigidBodyRecord>,
                                                          layers: map<nat, PhysicsLayer>, pairs: seq<(nat, nat)>)
    requires forall id :: id in bodies ==> bodies[id].layer !in layers
    ensures Sweep(bodies, layers, pairs) == bodies
    decreases |pairs|
  {
    if pairs != [] {
      UnregisteredLayersNeverCollide(bodies, layers, pairs[..|pairs| - 1]);
    }
  }

  /** Integration changes only motion, and never that of a static body without inverse mass. */
  lemma IntegrateAllOnlyMotion(bodies: map<nat, RigidBodyRecord>, g: Vec3, dt: real)
    requires forall id :: id in bodies ==> (bodies[id].physics.invMass == 0.0 ==> bodies[id].physics.isStatic)
    ensures OnlyMotion(bodies, IntegrateAll(bodies, g, dt))
  {
    forall id | id in bodies ensures SameButMotion(bodies[id], IntegrateAll(bodies, g, dt)[id]) {
      IntegratedMeaning(bodies[id], g, dt);
    }
  }

  // ------------------------------------------------------------ the system

  /** Bodies are keyed by their own ids, which lie between 1 and the next id to hand out. */
  ghost predicate BodiesNamed(bodies: map<nat, RigidBodyRecord>, nextEntityId: nat)
  {
    forall id :: id in bodies ==> 1 <= id < nextEntityId && bodies[id].entityId == id
  }

  /** Every stored body is static exactly when it has no inverse mass, as `createRigidBody` makes it. */
  ghost predicate StaticMeansImmovable(bodies: map<nat, RigidBodyRecord>)
  {
    forall id :: id in bodies ==> (bodies[id].physics.isStatic <==> bodies[id].physics.invMass == 0.0)
  }

  lemma OnlyMotionKeepsInvariants(u: map<nat, RigidBodyRecord>, v: map<nat, RigidBodyRecord>, next: nat)
    requires OnlyMotion(u, v)
    ensures BodiesNamed(u, next) ==> BodiesNamed(v, next)
    ensures StaticMeansImmovable(u) ==> StaticMeansImmovable(v)
  {
    forall id | id in u ensures v[id].entityId == u[id].entityId && v[id].physics.invMass == u[id].physics.invMass
                                && v[id].physics.isStatic == u[id].physics.isStatic {
      assert SameButMotion(u[id], v[id]);
    }
  }

  /** Appending a pair resolves it after the others. */
  lemma SweepSnoc(bodies: map<nat, RigidBodyRecord>, layers: map<nat, PhysicsLayer>, pairs: seq<(nat, nat)>,
                  p: (nat, nat))
    ensures Sweep(bodies, layers, pairs + [p]) == ResolvePair(Sweep(bodies, layers, pairs), layers, p.0, p.1)
  {
    assert (pairs + [p])[..|pairs|] == pairs;
  }

  /** The bodies named in `done` integrated and the others untouched. */
  function IntegratedSome(bodies: map<nat, RigidBodyRecord>, done: seq<nat>, g: Vec3, dt: real)
    : (r: map<nat, RigidBodyRecord>)
    ensures r.Keys == bodies.Keys
  {
    map id | id in bodies :: if id in done then Integrated(bodies[id], g, dt) else bodies[id]
  }

  /** Integrating one more body of a list without repetitions. */
  lemma IntegratedSomeStep(bodies: map<nat, RigidBodyRecord>, ids: seq<nat>, i: nat, g: Vec3, dt: real)
    requires NoDup(ids) && i < |ids| && ids[i] in bodies
    ensures var r := IntegratedSome(bodies, ids[..i], g, dt);
            IntegratedSome(bodies, ids[..i + 1], g, dt) == r[ids[i] := Integrated(r[ids[i]], g, dt)]
  {
    assert ids[..i + 1] == ids[..i] + [ids[i]];
    assert ids[i] !in ids[..i];
  }

  /** Once every body has had its turn, in whatever order, the whole table is integrated. */
  lemma IntegratedSomeAll(bodies: map<nat, RigidBodyRecord>, ids: seq<nat>, g: Vec3, dt: real)
    requires forall id :: id in bodies ==> id in ids
    ensures IntegratedSome(bodies, ids, g, dt) == IntegrateAll(bodies, g, dt)
  {
  }

  /** `ResolvePair` under a fixed layer registry, as a step function. */
  function PairStep(layers: map<nat, PhysicsLayer>): (map<nat, RigidBodyRecord>, nat, nat) -> map<nat, RigidBodyRecord>
  {
    (bodies: map<nat, RigidBodyRecord>, a: nat, b: nat) => ResolvePair(bodies, layers, a, b)
  }

  /** The sweep of `ResolvePair` is the fold of its step function. */
  lemma {:induction false} SweepIsFold(bodies: map<nat, RigidBodyRecord>, layers: map<nat, PhysicsLayer>,
                                       pairs: seq<(nat, nat)>)
    ensures Sweep(bodies, layers, pairs) == Pairs.Fold(PairStep(layers), bodies, pairs)
    decreases |pairs|
  {
    if pairs != [] {
      var init, last := pairs[..|pairs| - 1], pairs[|pairs| - 1];
      SweepIsFold(bodies, layers, init);
      assert init + [last] == pairs;
      Pairs.FoldSnoc(PairStep(layers), bodies, init, last);
    }
  }

  /**
   * `CPUPhysicsSystem`: the body table, the layer registry, the id counters,
   * the capacity and the gravity.
   */
  class CpuPhysicsSystem {
    var nextEntityId: nat
    var maxRigidBodies: nat
    var rigidBodies: map<nat, RigidBodyRecord>
    var layers: map<nat, PhysicsLayer>
    var nextLayerId: nat
    var gravity: Vec3

    /** Bodies and layers are keyed by fresh ids, layer lists are sound and symmetric. */
    ghost predicate Valid()
      reads this
    {
      1 <= nextEntityId && 1 <= nextLayerId
      && BodiesNamed(rigidBodies, nextEntityId) && StaticMeansImmovable(rigidBodies)
      && WellFormed(layers, nextLayerId) && Symmetric(layers)
    }

    /** The defaults of the class: capacity 512, both counters at 1, gravity (0, -9.81, 0). */
    constructor ()
      ensures Valid()
      ensures nextEntityId == 1 && nextLayerId == 1 && maxRigidBodies == DefaultMaxRigidBodies
      ensures rigidBodies == map[] && layers == map[] && gravity == DefaultGravity
    {
      nextEntityId := 1;
      maxRigidBodies := DefaultMaxRigidBodies;
      rigidBodies := map[];
      layers := map[];
      nextLayerId := 1;
      gravity := DefaultGravity;
    }

    /** `initialize`: records the capacity and registers the layer "Default". */
    method Initialize(maxBodies: nat) returns (ok: bool)
      requires Valid()
      modifies this
      ensures Valid() && ok
      ensures maxRigidBodies == maxBodies && nextLayerId == old(nextLayerId) + 1
      ensures layers == old(layers)[old(nextLayerId) := PhysicsLayer(old(nextLayerId), "Default", [old(nextLayerId)])]
      ensures rigidBodies == old(rigidBodies) && nextEntityId == old(nextEntityId) && gravity == old(gravity)
    {
      maxRigidBodies := maxBodies;
      var _ := CreateLayer("Default");
      ok := true;
    }

    /** `cleanup`: no bodies, no layers, both counters back to 1. */
    method Cleanup()
      requires Valid()
      modifies this
      ensures Valid()
      ensures rigidBodies == map[] && layers == map[] && nextEntityId == 1 && nextLayerId == 1
      ensures maxRigidBodies == old(maxRigidBodies) && gravity == old(gravity)
    {
      rigidBodies := map[];
      layers := map[];
      nextEntityId := 1;
      nextLayerId := 1;
    }

    /**
     * `createRigidBody`: 0 when the table is full; otherwise the next id,
     * under which the new body is stored.
     */
    method CreateRigidBody(x: real, y: real, z: real, width: real, height: real, depth: real, mass: real,
                           layer: nat) returns (id: nat)
      requires Valid()
      modifies this
      ensures Valid()
      ensures |old(rigidBodies)| >= old(maxRigidBodies) ==> id == 0 && rigidBodies == old(rigidBodies)
                                                            && nextEntityId == old(nextEntityId)
      ensures |old(rigidBodies)| < old(maxRigidBodies) ==>
                id == old(nextEntityId) && id !in old(rigidBodies) && nextEntityId == id + 1
                && rigidBodies == old(rigidBodies)[id := NewBody(id, Vec3(x, y, z), width, height, depth, mass, layer)]
      ensures layers == old(layers) && nextLayerId == old(nextLayerId)
      ensures maxRigidBodies == old(maxRigidBodies) && gravity == old(gravity)
    {
      if |rigidBodies| >= maxRigidBodies {
        return 0;
      }
      id := nextEntityId;
      nextEntityId := nextEntityId + 1;
      NewBodyMeaning(id, Vec3(x, y, z), width, height, depth, mass, layer);
      rigidBodies := rigidBodies[id := NewBody(id, Vec3(x, y, z), width, height, depth, mass, layer)];
    }

    /** `removeRigidBody`: true exactly when the id was stored, and it is gone afterwards. */
    method RemoveRigidBody(id: nat) returns (removed: bool)
      requires Valid()
      modifies this
      ensures Valid()
      ensures removed == (id in old(rigidBodies)) && rigidBodies == old(rigidBodies) - {id}
      ensures layers == old(layers) && nextLayerId == old(nextLayerId) && nextEntityId == old(nextEntityId)
      ensures maxRigidBodies == old(maxRigidBodies) && gravity == old(gravity)
    {
      if id !in rigidBodies {
        return false;
      }
      rigidBodies := rigidBodies - {id};
      removed := true;
    }

    /** `getRigidBody`: the stored body, or nothing for an unknown id. */
    function GetRigidBody(id: nat): (r: Option<RigidBodyRecord>)
      reads this
      ensures r.Some? <==> id in rigidBodies
      ensures r.Some? ==> r.value == rigidBodies[id]
    {
      if id in rigidBodies then Some(rigidBodies[id]) else None
    }

    /** `setGravity`. */
    method SetGravity(x: real, y: real, z: real)
      modifies this
      ensures gravity == Vec3(x, y, z)
      ensures rigidBodies == old(rigidBodies) && layers == old(layers) && nextEntityId == old(nextEntityId)
      ensures nextLayerId == old(nextLayerId) && maxRigidBodies == old(maxRigidBodies)
    {
      gravity := Vec3(x, y, z);
    }

    /** `createLayer`: the next layer id, registered under the name with a list naming only itself. */
    method CreateLayer(name: string) returns (id: nat)
      requires Valid()
      modifies this
      ensures Valid()
      ensures id == old(nextLayerId) && id !in old(layers) && nextLayerId == id + 1
      ensures layers == old(layers)[id := PhysicsLayer(id, name, [id])]
      ensures rigidBodies == old(rigidBodies) && nextEntityId == old(nextEntityId)
      ensures maxRigidBodies == old(maxRigidBodies) && gravity == old(gravity)
    {
      id := nextLayerId;
      NewLayerKeepsWellFormed(layers, nextLayerId, name, true);
      layers := layers[id := PhysicsLayer(id, name, [id])];
      nextLayerId := nextLayerId + 1;
    }

    /**
     * `setLayerInteraction`: false, changing nothing, unless both layers are
     * registered; otherwise both lists are updated.
     */
    method SetLayerInteraction(l1: nat, l2: nat, canInteract: bool) returns (ok: bool)
      requires Valid()
      modifies this
      ensures Valid()
      ensures ok == (l1 in old(layers) && l2 in old(layers))
      ensures layers == if ok then Interaction(old(layers), l1, l2, canInteract) else old(layers)
      ensures rigidBodies == old(rigidBodies) && nextEntityId == old(nextEntityId) && nextLayerId == old(nextLayerId)
      ensures maxRigidBodies == old(maxRigidBodies) && gravity == old(gravity)
    {
      if l1 !in layers || l2 !in layers {
        return false;
      }
      InteractionKeepsWellFormed(layers, nextLayerId, l1, l2, canInteract);
      layers := Interaction(layers, l1, l2, canInteract);
      ok := true;
    }

    /** `canLayersInteract`. */
    predicate CanLayersInteract(l1: nat, l2: nat)
      reads this
    {
      LayersInteract(layers, l1, l2)
    }

    /** `getLayer`: the registered layer, or nothing. */
    function GetLayer(id: nat): (r: Option<PhysicsLayer>)
      reads this
      ensures r.Some? <==> id in layers
      ensures r.Some? ==> r.value == layers[id]
    {
      if id in layers then Some(layers[id]) else None
    }

    function GetLayerCount(): nat
      reads this
    {
      |layers|
    }

    function GetMaxRigidBodies(): nat
      reads this
    {
      maxRigidBodies
    }

    function GetRigidBodyCount(): nat
      reads this
    {
      |rigidBodies|
    }

    /** `integratePhysics` on one stored body. */
    method IntegrateBody(id: nat, dt: real)
      requires id in rigidBodies
      modifies this`rigidBodies
      ensures rigidBodies == old(rigidBodies)[id := Integrated(old(rigidBodies)[id], gravity, dt)]
    {
      rigidBodies := rigidBodies[id := Integrated(rigidBodies[id], gravity, dt)];
    }

    /** The first loop of `updatePhysics`: every body integrated, in the table's order. */
    method IntegrateBodies(order: seq<nat>, dt: real)
      requires NoDup(order) && forall id :: id in order <==> id in rigidBodies
      modifies this`rigidBodies
      ensures rigidBodies == IntegrateAll(old(rigidBodies), gravity, dt)
    {
      var i := 0;
      while i < |order|
        invariant i <= |order|
        invariant rigidBodies == IntegratedSome(old(rigidBodies), order[..i], gravity, dt)
      {
        IntegratedSomeStep(old(rigidBodies), order, i, gravity, dt);
        IntegrateBody(order[i], dt);
        i := i + 1;
      }
      assert order[..|order|] == order;
      IntegratedSomeAll(old(rigidBodies), order, gravity, dt);
    }

    /** One iteration of the inner loop of `detectAndResolveCollisions`. */
    method ResolveAt(a: nat, b: nat)
      requires a in rigidBodies && b in rigidBodies
      modifies this`rigidBodies
      ensures rigidBodies == ResolvePair(old(rigidBodies), layers, a, b)
    {
      var body1, body2 := rigidBodies[a], rigidBodies[b];
      if !CanLayersInteract(body1.layer, body2.layer) {
        return;
      }
      if !body1.hasCollider || !body2.hasCollider || !body1.collider.enabled || !body2.collider.enabled {
        return;
      }
      if CheckBoxBox(body1, body2) {
        var res := Resolve(body1, body2);
        rigidBodies := rigidBodies[a := res.0][b := res.1];
      }
    }

    /** The inner loop of `detectAndResolveCollisions`: body `order[i]` against every later one. */
    method SweepRow(order: seq<nat>, i: nat)
      requires i < |order| && forall id :: id in order ==> id in rigidBodies
      modifies this`rigidBodies
      ensures rigidBodies == Pairs.RowFold(PairStep(layers), old(rigidBodies), order, EcsCollision.AnyPair(), i, |order|)
      ensures rigidBodies.Keys == old(rigidBodies).Keys
    {
      var j := i + 1;
      while j < |order|
        invariant i < j <= |order|
        invariant rigidBodies == Pairs.RowFold(PairStep(layers), old(rigidBodies), order, EcsCollision.AnyPair(), i, j)
        invariant rigidBodies.Keys == old(rigidBodies).Keys
      {
        ResolveAt(order[i], order[j]);
        j := j + 1;
      }
    }

    /** `detectAndResolveCollisions`: every later body against every earlier one, in the table's order. */
    method DetectAndResolveCollisions(order: seq<nat>)
      requires forall id :: id in order ==> id in rigidBodies
      modifies this`rigidBodies
      ensures rigidBodies == DetectAndResolve(old(rigidBodies), layers, order)
    {
      var i := 0;
      while i < |order|
        invariant i <= |order|
        invariant rigidBodies == Pairs.UpperFold(PairStep(layers), old(rigidBodies), order, EcsCollision.AnyPair(), i)
        invariant rigidBodies.Keys == old(rigidBodies).Keys
      {
        SweepRow(order, i);
        i := i + 1;
      }
      Pairs.UpperFoldIsFold(PairStep(layers), old(rigidBodies), order, EcsCollision.AnyPair(), |order|);
      SweepIsFold(old(rigidBodies), layers, Pairs.AllPairs(order, EcsCollision.AnyPair()));
    }

    /**
     * `updatePhysics`: every body integrated, then every pair resolved, both
     * in the table's iteration order, which is returned. Only positions and
     * velocities change, never those of a static body.
     */
    method UpdatePhysics(dt: real) returns (order: seq<nat>)
      requires Valid()
      modifies this
      ensures Valid()
      ensures NoDup(order) && forall id :: id in order <==> id in old(rigidBodies)
      ensures rigidBodies == DetectAndResolve(IntegrateAll(old(rigidBodies), gravity, dt), layers, order)
      ensures OnlyMotion(old(rigidBodies), rigidBodies)
      ensures layers == old(layers) && nextEntityId == old(nextEntityId) && nextLayerId == old(nextLayerId)
      ensures maxRigidBodies == old(maxRigidBodies) && gravity == old(gravity)
    {
      order := KeysInIterationOrder(rigidBodies);
      ghost var start := rigidBodies;
      IntegrateBodies(order, dt);
      ghost var moved := rigidBodies;
      IntegrateAllOnlyMotion(start, gravity, dt);
      DetectAndResolveCollisions(order);
      DistinctPairs(order);
      SweepOnlyMotion(moved, layers, Pairs.AllPairs(order, EcsCollision.AnyPair()));
      OnlyMotionTrans(start, moved, rigidBodies);
      OnlyMotionKeepsInvariants(start, rigidBodies, nextEntityId);
    }
  }
}
