// The ECS collision system: each update integrates the velocities of the
// entities owning a transform, a physics record and a box collider, finds
// their contacts (AABB broad phase, minimum-penetration-axis narrow phase),
// resolves each contact by positional correction and a restitution impulse,
// and finally moves the bodies.
module EcsCollision {
  import opened Common
  import opened Components
  import Ecs
  import Pairs
  import ComponentFactory
  import opened EcsContacts

  /** The per-step velocity damping ("air resistance"). */
  const Damping: real := 0.99

  // ------------------------------------------------------------ integration

  /**
   * `integratePhysics` with `applyGravity` on one record: static bodies are
   * left alone; otherwise gravity is added when the body uses it and has a
   * positive inverse mass, and both velocities are then damped.
   */
  function Integrated(p: Physics, g: Vec3, dt: real): Physics
  {
    if p.isStatic then p
    else
      var v := if p.useGravity && p.invMass > 0.0 then p.velocity.Add(g.Scale(dt)) else p.velocity;
      p.(velocity := v.Scale(Damping), angularVelocity := p.angularVelocity.Scale(Damping))
  }

  /**
   * Integration changes only the two velocities, never a static body, and
   * applies gravity before the damping.
   */
  lemma IntegratedMeaning(p: Physics, g: Vec3, dt: real)
    ensures p.isStatic ==> Integrated(p, g, dt) == p
    ensures var q := Integrated(p, g, dt);
            q.mass == p.mass && q.invMass == p.invMass && q.restitution == p.restitution
            && q.friction == p.friction && q.isStatic == p.isStatic && q.useGravity == p.useGravity
    ensures !p.isStatic && p.useGravity && p.invMass > 0.0 ==>
              Integrated(p, g, dt).velocity == p.velocity.Add(g.Scale(dt)).Scale(0.99)
    ensures !p.isStatic && !(p.useGravity && p.invMass > 0.0) ==>
              Integrated(p, g, dt).velocity == p.velocity.Scale(0.99)
    ensures !p.isStatic ==> Integrated(p, g, dt).angularVelocity == p.angularVelocity.Scale(0.99)
  {
  }

  /** A kinematic body (inverse mass 0) ignores gravity and only slows down. */
  lemma KinematicIgnoresGravity(g: Vec3, dt: real)
    ensures var k := ComponentFactory.CreatePhysicsComponent(0.0, false, false, 0.0, 0.0);
            !k.isStatic && k.invMass == 0.0
            && Integrated(k.(velocity := Vec3(1.0, 0.0, 0.0)), g, dt).velocity == Vec3(0.99, 0.0, 0.0)
  {
  }

  /** `integratePhysics` for the listed entities, in order. */
  function IntegrateAll(ps: map<nat, Physics>, ids: seq<nat>, g: Vec3, dt: real): (r: map<nat, Physics>)
    ensures r.Keys == ps.Keys
    decreases |ids|
  {
    if ids == [] then ps
    else
      var q := IntegrateAll(ps, ids[..|ids| - 1], g, dt);
      var id := ids[|ids| - 1];
      if id in q then q[id := Integrated(q[id], g, dt)] else q
  }

  /** Each listed record is integrated once; every other record is untouched. */
  lemma {:induction false} IntegrateAllMeaning(ps: map<nat, Physics>, ids: seq<nat>, g: Vec3, dt: real)
    requires NoDup(ids)
    ensures forall id :: id in ps ==>
              IntegrateAll(ps, ids, g, dt)[id] == if id in ids then Integrated(ps[id], g, dt) else ps[id]
    decreases |ids|
  {
    if ids != [] {
      var init := ids[..|ids| - 1];
      assert ids == init + [ids[|ids| - 1]];
      assert NoDup(init) by {
        forall i, j | 0 <= i < j < |init| ensures init[i] != init[j] {
          assert init[i] == ids[i] && init[j] == ids[j];
        }
      }
      assert ids[|ids| - 1] !in init by {
        forall i | 0 <= i < |init| ensures init[i] != ids[|ids| - 1] {
          assert init[i] == ids[i];
        }
      }
      IntegrateAllMeaning(ps, init, g, dt);
    }
  }

  /** `updateTransformFromPhysics` on one body: a non-static body moves by velocity·dt. */
  function Moved(t: Transform, p: Physics, dt: real): Transform
  {
    if p.isStatic then t else t.(position := t.position.Add(p.velocity.Scale(dt)))
  }

  /** Only the position changes, and only for a body that is not static. */
  lemma MovedMeaning(t: Transform, p: Physics, dt: real)
    ensures p.isStatic ==> Moved(t, p, dt) == t
    ensures Moved(t, p, dt).rotation == t.rotation && Moved(t, p, dt).scale == t.scale
    ensures !p.isStatic ==> Moved(t, p, dt).position.Sub(t.position) == p.velocity.Scale(dt)
  {
  }

  /** `updateTransformFromPhysics` for the listed entities, in order. */
  function MoveAll(ts: map<nat, Transform>, ps: map<nat, Physics>, ids: seq<nat>, dt: real): (r: map<nat, Transform>)
    ensures r.Keys == ts.Keys
    decreases |ids|
  {
    if ids == [] then ts
    else
      var q := MoveAll(ts, ps, ids[..|ids| - 1], dt);
      var id := ids[|ids| - 1];
      if id in q && id in ps then q[id := Moved(q[id], ps[id], dt)] else q
  }

  /** Each listed body with a physics record moves once; every other transform is untouched. */
  lemma {:induction false} MoveAllMeaning(ts: map<nat, Transform>, ps: map<nat, Physics>, ids: seq<nat>, dt: real)
    requires NoDup(ids)
    ensures forall id :: id in ts ==>
              MoveAll(ts, ps, ids, dt)[id] == if id in ids && id in ps then Moved(ts[id], ps[id], dt) else ts[id]
    decreases |ids|
  {
    if ids != [] {
      var init := ids[..|ids| - 1];
      assert ids == init + [ids[|ids| - 1]];
      assert NoDup(init) by {
        forall i, j | 0 <= i < j < |init| ensures init[i] != init[j] {
          assert init[i] == ids[i] && init[j] == ids[j];
        }
      }
      assert ids[|ids| - 1] !in init by {
        forall i | 0 <= i < |init| ensures init[i] != ids[|ids| - 1] {
          assert init[i] == ids[i];
        }
      }
      MoveAllMeaning(ts, ps, init, dt);
    }
  }

  // ------------------------------------------------------------ narrow phase

  /** What `checkBoxBoxCollision` writes into the contact it is handed. */
  datatype BoxHit = BoxHit(penetrationDepth: real, normal: Vec3, contactPoint: Vec3)

  /** The sign of the normal on `axis`: +1 when A lies above B on it. */
  function NormalSign(ta: Transform, tb: Transform, axis: nat): real
    requires axis < 3
  {
    if ta.position.At(axis) > tb.position.At(axis) then 1.0 else -1.0
  }

  /**
   * `checkBoxBoxCollision`: there is a contact exactly when the boxes
   * interpenetrate strictly on every axis, and its depth is then positive.
   */
  function CheckBoxBox(ta: Transform, ca: BoxCollider, tb: Transform, cb: BoxCollider): (r: Option<BoxHit>)
    ensures var p := Penetrations(ta, ca, tb, cb);
            r.Some? <==> p.x > 0.0 && p.y > 0.0 && p.z > 0.0
    ensures r.Some? ==> r.value.penetrationDepth > 0.0
  {
    var p := Penetrations(ta, ca, tb, cb);
    if !(p.x > 0.0 && p.y > 0.0 && p.z > 0.0) then None
    else
      var m := MinAxis(p);
      Some(BoxHit(p.At(m), AxisVec(m, NormalSign(ta, tb, m)), ta.position.Add(tb.position).Scale(0.5)))
  }

  /**
   * A contact's depth is the least per-axis penetration, its normal is a unit
   * vector on the first axis of least penetration pointing from B to A, and
   * its point is the midpoint of the two centres.
   */
  lemma CheckBoxBoxContact(ta: Transform, ca: BoxCollider, tb: Transform, cb: BoxCollider)
    ensures var r := CheckBoxBox(ta, ca, tb, cb);
            var p := Penetrations(ta, ca, tb, cb);
            r.Some? ==>
              exists m :: 0 <= m < 3
                && (forall k :: 0 <= k < 3 ==> p.At(m) <= p.At(k))
                && (forall k :: 0 <= k < m ==> p.At(m) < p.At(k))
                && r.value.penetrationDepth == p.At(m)
                && r.value.normal == AxisVec(m, NormalSign(ta, tb, m))
    ensures var r := CheckBoxBox(ta, ca, tb, cb);
            r.Some? ==> r.value.normal.Dot(r.value.normal) == 1.0
                        && r.value.contactPoint == ta.position.Add(tb.position).Scale(0.5)
  {
    var r := CheckBoxBox(ta, ca, tb, cb);
    if r.Some? {
      var m := MinAxis(Penetrations(ta, ca, tb, cb));
      assert r.value.normal == AxisVec(m, NormalSign(ta, tb, m));
    }
  }

  /**
   * The narrow phase is stricter than the broad phase: every contact's boxes
   * overlap, and boxes that overlap without a contact are exactly those that
   * only touch on some axis.
   */
  lemma NarrowStricterThanBroad(ta: Transform, ca: BoxCollider, tb: Transform, cb: BoxCollider)
    ensures CheckBoxBox(ta, ca, tb, cb).Some? ==> AabbOverlap(CalculateAabb(ta, ca), CalculateAabb(tb, cb))
    ensures var p := Penetrations(ta, ca, tb, cb);
            (AabbOverlap(CalculateAabb(ta, ca), CalculateAabb(tb, cb)) && CheckBoxBox(ta, ca, tb, cb).None?)
              <==> p.x >= 0.0 && p.y >= 0.0 && p.z >= 0.0 && (p.x == 0.0 || p.y == 0.0 || p.z == 0.0)
  {
    AabbOverlapIffPenetrations(ta, ca, tb, cb);
  }

  /**
   * `narrowPhaseDetection`: no contact when a component is missing or either
   * collider is disabled; a contact names the candidate pair in its order.
   */
  function NarrowPhase(ts: map<nat, Transform>, cs: map<nat, BoxCollider>, a: nat, b: nat): (r: Option<CollisionPair>)
    ensures r.Some? <==> a in ts && b in ts && a in cs && b in cs && cs[a].enabled && cs[b].enabled
                         && CheckBoxBox(ts[a], cs[a], ts[b], cs[b]).Some?
    ensures r.Some? ==> r.value.entityA == a && r.value.entityB == b && r.value.penetrationDepth > 0.0
  {
    if !(a in ts && b in ts && a in cs && b in cs) then None
    else if !cs[a].enabled || !cs[b].enabled then None
    else
      match CheckBoxBox(ts[a], cs[a], ts[b], cs[b])
      case None => None
      case Some(h) => Some(CollisionPair(a, b, h.penetrationDepth, h.normal, h.contactPoint))
  }

  /** The contacts `detectCollisions` appends for the candidate pairs, in order. */
  function Contacts(ts: map<nat, Transform>, cs: map<nat, BoxCollider>,
                    canLayersInteract: Option<(nat, nat) -> bool>, pairs: seq<(nat, nat)>): (r: seq<CollisionPair>)
    ensures |r| <= |pairs|
    decreases |pairs|
  {
    if pairs == [] then []
    else
      var (a, b) := pairs[|pairs| - 1];
      Contacts(ts, cs, canLayersInteract, pairs[..|pairs| - 1])
        + if CanEntitiesCollide(canLayersInteract, a, b) && NarrowPhase(ts, cs, a, b).Some?
          then [NarrowPhase(ts, cs, a, b).value] else []
  }

  /**
   * Every contact is the narrow-phase result of one candidate pair the layer
   * filter allows, and every such result is a contact.
   */
  lemma {:induction false} ContactsMembers(ts: map<nat, Transform>, cs: map<nat, BoxCollider>,
                                           canLayersInteract: Option<(nat, nat) -> bool>, pairs: seq<(nat, nat)>)
    ensures forall c :: c in Contacts(ts, cs, canLayersInteract, pairs) ==>
              (c.entityA, c.entityB) in pairs && CanEntitiesCollide(canLayersInteract, c.entityA, c.entityB)
              && NarrowPhase(ts, cs, c.entityA, c.entityB) == Some(c)
    ensures forall p :: p in pairs && CanEntitiesCollide(canLayersInteract, p.0, p.1)
                        && NarrowPhase(ts, cs, p.0, p.1).Some? ==>
              NarrowPhase(ts, cs, p.0, p.1).value in Contacts(ts, cs, canLayersInteract, pairs)
    decreases |pairs|
  {
    if pairs != [] {
      var init := pairs[..|pairs| - 1];
      ContactsMembers(ts, cs, canLayersInteract, init);
      assert pairs == init + [pairs[|pairs| - 1]];
      var (a, b) := pairs[|pairs| - 1];
      if CanEntitiesCollide(canLayersInteract, a, b) && NarrowPhase(ts, cs, a, b).Some? {
        var c := NarrowPhase(ts, cs, a, b).value;
        assert (c.entityA, c.entityB) == pairs[|pairs| - 1];
      }
    }
  }

  /**
   * A layer callback that refuses layer 0 blocks every contact, whatever
   * the candidates.
   */
  lemma {:induction false} LayerZeroBlocksAll(ts: map<nat, Transform>, cs: map<nat, BoxCollider>,
                                              f: (nat, nat) -> bool, pairs: seq<(nat, nat)>)
    requires !f(0, 0)
    ensures Contacts(ts, cs, Some(f), pairs) == []
    decreases |pairs|
  {
    if pairs != [] {
      LayerZeroBlocksAll(ts, cs, f, pairs[..|pairs| - 1]);
    }
  }

  // ------------------------------------------------------------ broad phase

  /** The broad-phase test on a pair of entities: both have boxes, and the boxes overlap. */
  function OverlapKeep(ts: map<nat, Transform>, cs: map<nat, BoxCollider>): (nat, nat) -> bool
  {
    (a: nat, b: nat) => a in ts && b in ts && a in cs && b in cs
                        && AabbOverlap(CalculateAabb(ts[a], cs[a]), CalculateAabb(ts[b], cs[b]))
  }

  /** The brute-force test: every pair is a candidate. */
  function AnyPair(): (nat, nat) -> bool
  {
    (a: nat, b: nat) => true
  }

  /** The candidate pairs of `detectCollisions`, with or without the broad phase. */
  function Candidates(ts: map<nat, Transform>, cs: map<nat, BoxCollider>, broadPhase: bool,
                      es: seq<nat>): seq<(nat, nat)>
  {
    Pairs.AllPairs(es, if broadPhase then OverlapKeep(ts, cs) else AnyPair())
  }

  /**
   * The broad phase drops no contact: with or without it the same contacts
   * are found.
   */
  lemma BroadPhaseLosesNoContact(ts: map<nat, Transform>, cs: map<nat, BoxCollider>,
                                 canLayersInteract: Option<(nat, nat) -> bool>, es: seq<nat>)
    ensures forall c :: c in Contacts(ts, cs, canLayersInteract, Candidates(ts, cs, true, es)) <==>
                        c in Contacts(ts, cs, canLayersInteract, Candidates(ts, cs, false, es))
  {
    var broad := Candidates(ts, cs, true, es);
    var all := Candidates(ts, cs, false, es);
    Pairs.AllPairsMembers(es, OverlapKeep(ts, cs));
    Pairs.AllPairsMembers(es, AnyPair());
    ContactsMembers(ts, cs, canLayersInteract, broad);
    ContactsMembers(ts, cs, canLayersInteract, all);
    forall c | c in Contacts(ts, cs, canLayersInteract, broad)
      ensures c in Contacts(ts, cs, canLayersInteract, all)
    {
      var i, j :| 0 <= i < j < |es| && (c.entityA, c.entityB) == (es[i], es[j]);
      assert AnyPair()(es[i], es[j]);
    }
    forall c | c in Contacts(ts, cs, canLayersInteract, all)
      ensures c in Contacts(ts, cs, canLayersInteract, broad)
    {
      var i, j :| 0 <= i < j < |es| && (c.entityA, c.entityB) == (es[i], es[j]);
      var a, b := c.entityA, c.entityB;
      NarrowStricterThanBroad(ts[a], cs[a], ts[b], cs[b]);
      assert OverlapKeep(ts, cs)(es[i], es[j]);
    }
  }

  /**
   * The broad-phase candidates are exactly the pairs `(es[i], es[j])` with
   * `i < j` whose boxes overlap inclusively.
   */
  lemma BroadPhaseCandidates(ts: map<nat, Transform>, cs: map<nat, BoxCollider>, es: seq<nat>)
    ensures forall i, j :: 0 <= i < j < |es| && es[i] in ts && es[j] in ts && es[i] in cs && es[j] in cs
                           && AabbOverlap(CalculateAabb(ts[es[i]], cs[es[i]]), CalculateAabb(ts[es[j]], cs[es[j]]))
                           ==> (es[i], es[j]) in Candidates(ts, cs, true, es)
    ensures forall p :: p in Candidates(ts, cs, true, es) ==>
              p.0 in ts && p.1 in ts && p.0 in cs && p.1 in cs
              && AabbOverlap(CalculateAabb(ts[p.0], cs[p.0]), CalculateAabb(ts[p.1], cs[p.1]))
              && exists i, j :: 0 <= i < j < |es| && p == (es[i], es[j])
  {
    Pairs.AllPairsMembers(es, OverlapKeep(ts, cs));
    forall i, j | 0 <= i < j < |es| && OverlapKeep(ts, cs)(es[i], es[j])
      ensures (es[i], es[j]) in Candidates(ts, cs, true, es)
    {
    }
  }

  // ------------------------------------------------------------ resolution

  /**
   * `separateEntities`: when either body can move, A is pushed along the
   * normal and B against it, each by its share of half the depth in
   * proportion to its inverse mass; static bodies stay put.
   */
  function Separate(ts: map<nat, Transform>, ps: map<nat, Physics>, c: CollisionPair): (r: map<nat, Transform>)
    ensures r.Keys == ts.Keys
  {
    var a, b := c.entityA, c.entityB;
    if !(a in ts && b in ts && a in ps && b in ps) then ts
    else
      var pa, pb := ps[a], ps[b];
      var total := pa.invMass + pb.invMass;
      if total <= 0.0 then ts
      else
        var sepA := SeparationShare(pa.invMass, total, c.penetrationDepth);
        var sepB := SeparationShare(pb.invMass, total, c.penetrationDepth);
        var ts1 := if pa.isStatic then ts
                   else ts[a := ts[a].(position := ts[a].position.Add(c.normal.Scale(sepA)))];
        if pb.isStatic then ts1
        else ts1[b := ts1[b].(position := ts1[b].position.Sub(c.normal.Scale(sepB)))]
  }

  /** A body's part of half the depth, in proportion to its inverse mass. */
  function SeparationShare(invMass: real, total: real, depth: real): real
    requires total != 0.0
  {
    (invMass / total) * depth * 0.5
  }

  /** Moving `u` by `k` along `n` changes its component along `n` by `k·|n|²`. */
  lemma DotAddScale(u: Vec3, n: Vec3, k: real)
    ensures u.Add(n.Scale(k)).Dot(n) == u.Dot(n) + k * n.Dot(n)
    ensures u.Sub(n.Scale(k)).Dot(n) == u.Dot(n) - k * n.Dot(n)
  {
    ShiftTimes(u.x, n.x, k);
    ShiftTimes(u.y, n.y, k);
    ShiftTimes(u.z, n.z, k);
    assert k * n.Dot(n) == k * (n.x * n.x) + k * (n.y * n.y) + k * (n.z * n.z);
  }

  /** One component of `DotAddScale`. */
  lemma ShiftTimes(a: real, b: real, k: real)
    ensures (a + b * k) * b == a * b + k * (b * b)
    ensures (a - b * k) * b == a * b - k * (b * b)
  {
  }

  /** The two inverse-mass shares add up to one. */
  lemma SharesSumToOne(x: real, y: real)
    requires x + y > 0.0
    ensures x / (x + y) + y / (x + y) == 1.0
  {
  }

  /**
   * For a unit normal, distinct bodies and static bodies of inverse mass 0,
   * separation widens the gap between A and B along the normal by exactly
   * half the depth; a static body does not move at all.
   */
  lemma SeparateDisplacement(ts: map<nat, Transform>, ps: map<nat, Physics>, c: CollisionPair)
    requires c.entityA != c.entityB
    requires c.entityA in ts && c.entityB in ts && c.entityA in ps && c.entityB in ps
    requires ps[c.entityA].invMass + ps[c.entityB].invMass > 0.0
    requires ps[c.entityA].isStatic ==> ps[c.entityA].invMass == 0.0
    requires ps[c.entityB].isStatic ==> ps[c.entityB].invMass == 0.0
    requires c.normal.Dot(c.normal) == 1.0
    ensures var r := Separate(ts, ps, c);
            r[c.entityA].position.Sub(r[c.entityB].position).Dot(c.normal)
              == ts[c.entityA].position.Sub(ts[c.entityB].position).Dot(c.normal) + c.penetrationDepth * 0.5
    ensures var r := Separate(ts, ps, c);
            (ps[c.entityA].isStatic ==> r[c.entityA] == ts[c.entityA])
            && (ps[c.entityB].isStatic ==> r[c.entityB] == ts[c.entityB])
  {
    var a, b, n := c.entityA, c.entityB, c.normal;
    var pa, pb := ps[a], ps[b];
    var total := pa.invMass + pb.invMass;
    var sepA := SeparationShare(pa.invMass, total, c.penetrationDepth);
    var sepB := SeparationShare(pb.invMass, total, c.penetrationDepth);
    var r := Separate(ts, ps, c);
    var ts1 := if pa.isStatic then ts else ts[a := ts[a].(position := ts[a].position.Add(n.Scale(sepA)))];
    assert ts1[b] == ts[b];
    var qa := if pa.isStatic then ts[a].position else ts[a].position.Add(n.Scale(sepA));
    var qb := if pb.isStatic then ts[b].position else ts[b].position.Sub(n.Scale(sepB));
    assert r[a].position == qa && r[b].position == qb;
    var d := ts[a].position.Sub(ts[b].position);
    DotAddScale(ts[a].position, n, sepA);
    DotAddScale(ts[b].position, n, sepB);
    assert qa.Dot(n) == ts[a].position.Dot(n) + sepA by {
      if pa.isStatic { assert sepA == 0.0; }
    }
    assert qb.Dot(n) == ts[b].position.Dot(n) - sepB by {
      if pb.isStatic { assert sepB == 0.0; }
    }
    SharesSumToOne(pa.invMass, pb.invMass);
    assert sepA + sepB == c.penetrationDepth * 0.5;
    DotOfSub(qa, qb, n);
    DotOfSub(ts[a].position, ts[b].position, n);
  }

  /** The dot product distributes over a difference. */
  lemma DotOfSub(u: Vec3, v: Vec3, n: Vec3)
    ensures u.Sub(v).Dot(n) == u.Dot(n) - v.Dot(n)
  {
  }

  /** The relative velocity of A with respect to B along the contact normal. */
  function NormalVelocity(pa: Physics, pb: Physics, n: Vec3): real
  {
    pa.velocity.Sub(pb.velocity).Dot(n)
  }

  /** The impulse magnitude `-(1 + e)·vn / total`. */
  function ImpulseMagnitude(e: real, vn: real, total: real): real
    requires total != 0.0
  {
    -(1.0 + e) * vn / total
  }

  /** Both velocities after an impulse of magnitude `j` along `n`. */
  function ApplyImpulse(ps: map<nat, Physics>, a: nat, b: nat, n: Vec3, j: real): (r: map<nat, Physics>)
    requires a in ps && b in ps
    ensures r.Keys == ps.Keys
  {
    var pa := ps[a];
    var ps1 := if pa.isStatic then ps else ps[a := pa.(velocity := pa.velocity.Add(n.Scale(Share(j, pa))))];
    var pb := ps1[b];
    if pb.isStatic then ps1 else ps1[b := pb.(velocity := pb.velocity.Sub(n.Scale(Share(j, pb))))]
  }

  /** The part of an impulse `j` a body takes: `j` times its inverse mass. */
  function Share(j: real, p: Physics): real
  {
    j * p.invMass
  }

  /**
   * `applyCollisionImpulse` as written: when the bodies approach or rest
   * (normal velocity not positive) it divides by the sum of the inverse
   * masses without checking it; `None` marks that the division by zero is
   * reached.
   */
  function ImpulseAsWritten(ps: map<nat, Physics>, c: CollisionPair): (r: Option<map<nat, Physics>>)
    ensures r.None? ==> c.entityA in ps && c.entityB in ps
                        && ps[c.entityA].invMass + ps[c.entityB].invMass == 0.0
  {
    var a, b := c.entityA, c.entityB;
    if !(a in ps && b in ps) then Some(ps)
    else
      var pa, pb := ps[a], ps[b];
      var vn := NormalVelocity(pa, pb, c.normal);
      if vn > 0.0 then Some(ps)
      else
        var e := MinR(pa.restitution, pb.restitution);
        var total := pa.invMass + pb.invMass;
        if total == 0.0 then None
        else Some(ApplyImpulse(ps, a, b, c.normal, ImpulseMagnitude(e, vn, total)))
  }

  /**
   * A contact between a kinematic body as the entity factory builds it
   * (inverse mass 0, not static, at rest) and a static body reaches the
   * division by zero: the impulse is 0/0, and the kinematic body's velocity
   * becomes NaN because NaN·0 is NaN.
   */
  lemma KinematicRestingOnStaticDividesByZero(ps: map<nat, Physics>, c: CollisionPair)
    requires c.entityA in ps && c.entityB in ps
    requires ps[c.entityA] == ComponentFactory.CreatePhysicsComponent(0.0, false, false, 0.0, 0.0)
    requires ps[c.entityB] == ComponentFactory.CreateStaticPhysics()
    ensures !ps[c.entityA].isStatic && ImpulseAsWritten(ps, c).None?
  {
    assert ps[c.entityA].velocity == Zero && ps[c.entityB].velocity == Zero;
  }

  /**
   * `applyCollisionImpulse` guarded against its division by zero: no impulse
   * when the inverse masses sum to 0. Any other sum, negative ones included,
   * is divided by as written.
   */
  function Impulse(ps: map<nat, Physics>, c: CollisionPair): (r: map<nat, Physics>)
    ensures r.Keys == ps.Keys
  {
    var a, b := c.entityA, c.entityB;
    if !(a in ps && b in ps) then ps
    else
      var pa, pb := ps[a], ps[b];
      var vn := NormalVelocity(pa, pb, c.normal);
      if vn > 0.0 then ps
      else
        var e := MinR(pa.restitution, pb.restitution);
        var total := pa.invMass + pb.invMass;
        if total == 0.0 then ps
        else ApplyImpulse(ps, a, b, c.normal, ImpulseMagnitude(e, vn, total))
  }

  /** The guarded impulse agrees with the source wherever the source's division is defined, that is for every non-zero sum. */
  lemma ImpulseAgreesAwayFromZero(ps: map<nat, Physics>, c: CollisionPair)
    requires c.entityA in ps && c.entityB in ps ==> ps[c.entityA].invMass + ps[c.entityB].invMass != 0.0
    ensures ImpulseAsWritten(ps, c) == Some(Impulse(ps, c))
  {
  }

  /** Separating bodies get no impulse. */
  lemma ImpulseIgnoresSeparating(ps: map<nat, Physics>, c: CollisionPair)
    requires c.entityA in ps && c.entityB in ps
    requires NormalVelocity(ps[c.entityA], ps[c.entityB], c.normal) > 0.0
    ensures Impulse(ps, c) == ps
  {
  }

  /**
   * For approaching or resting distinct bodies with a unit normal whose
   * static members have inverse mass 0, the relative normal velocity after
   * the impulse is the one before times minus the smaller restitution.
   */
  lemma ImpulseRestitution(ps: map<nat, Physics>, c: CollisionPair)
    requires c.entityA != c.entityB && c.entityA in ps && c.entityB in ps
    requires ps[c.entityA].invMass + ps[c.entityB].invMass != 0.0
    requires ps[c.entityA].isStatic ==> ps[c.entityA].invMass == 0.0
    requires ps[c.entityB].isStatic ==> ps[c.entityB].invMass == 0.0
    requires c.normal.Dot(c.normal) == 1.0
    requires NormalVelocity(ps[c.entityA], ps[c.entityB], c.normal) <= 0.0
    ensures var r := Impulse(ps, c);
            NormalVelocity(r[c.entityA], r[c.entityB], c.normal)
              == -MinR(ps[c.entityA].restitution, ps[c.entityB].restitution)
                 * NormalVelocity(ps[c.entityA], ps[c.entityB], c.normal)
  {
    var j := ImpulseMagnitude(MinR(ps[c.entityA].restitution, ps[c.entityB].restitution),
                              NormalVelocity(ps[c.entityA], ps[c.entityB], c.normal),
                              ps[c.entityA].invMass + ps[c.entityB].invMass);
    ImpulseApplies(ps, c);
    ApplyImpulseVelocities(ps, c.entityA, c.entityB, c.normal, j);
    RelativeVelocityAfterImpulse(ps[c.entityA], ps[c.entityB], Impulse(ps, c)[c.entityA], Impulse(ps, c)[c.entityB],
                                 c.normal, MinR(ps[c.entityA].restitution, ps[c.entityB].restitution), j);
  }

  /** An impulse that is not skipped is the one of magnitude `ImpulseMagnitude`. */
  lemma ImpulseApplies(ps: map<nat, Physics>, c: CollisionPair)
    requires c.entityA in ps && c.entityB in ps
    requires ps[c.entityA].invMass + ps[c.entityB].invMass != 0.0
    requires NormalVelocity(ps[c.entityA], ps[c.entityB], c.normal) <= 0.0
    ensures var pa, pb := ps[c.entityA], ps[c.entityB];
            var e := MinR(pa.restitution, pb.restitution);
            Impulse(ps, c)
              == ApplyImpulse(ps, c.entityA, c.entityB, c.normal,
                              ImpulseMagnitude(e, NormalVelocity(pa, pb, c.normal), pa.invMass + pb.invMass))
  {
  }

  /** For distinct bodies, each velocity moves by `j·invMass` along `n` (a static one by nothing). */
  lemma ApplyImpulseVelocities(ps: map<nat, Physics>, a: nat, b: nat, n: Vec3, j: real)
    requires a != b && a in ps && b in ps
    requires ps[a].isStatic ==> ps[a].invMass == 0.0
    requires ps[b].isStatic ==> ps[b].invMass == 0.0
    ensures var r := ApplyImpulse(ps, a, b, n, j);
            r[a].velocity == ps[a].velocity.Add(n.Scale(Share(j, ps[a])))
            && r[b].velocity == ps[b].velocity.Sub(n.Scale(Share(j, ps[b])))
  {
    var pa := ps[a];
    var ps1 := if pa.isStatic then ps else ps[a := pa.(velocity := pa.velocity.Add(n.Scale(Share(j, pa))))];
    assert ps1[b] == ps[b];
    if pa.isStatic {
      assert Share(j, pa) == 0.0;
    }
    if ps[b].isStatic {
      assert Share(j, ps[b]) == 0.0;
    }
  }

  /** The normal velocity `-e·vn` that a restitution `e` turns `vn` into. */
  function Rebound(e: real, vn: real): real
  {
    -e * vn
  }

  /** The impulse arithmetic: the relative normal velocity becomes `-e·vn`. */
  lemma RelativeVelocityAfterImpulse(pa: Physics, pb: Physics, qa: Physics, qb: Physics, n: Vec3, e: real, j: real)
    requires pa.invMass + pb.invMass != 0.0 && n.Dot(n) == 1.0
    requires j == ImpulseMagnitude(e, NormalVelocity(pa, pb, n), pa.invMass + pb.invMass)
    requires qa.velocity == pa.velocity.Add(n.Scale(Share(j, pa)))
    requires qb.velocity == pb.velocity.Sub(n.Scale(Share(j, pb)))
    ensures NormalVelocity(qa, qb, n) == Rebound(e, NormalVelocity(pa, pb, n))
  {
    RelativeVelocityAfterPushes(pa.velocity, pb.velocity, n, Share(j, pa), Share(j, pb));
    ImpulseSplits(pa, pb, e, NormalVelocity(pa, pb, n), j);
  }

  /** Pushing A by `ka` along a unit `n` and B by `kb` against it adds `ka + kb` to their relative normal velocity. */
  lemma RelativeVelocityAfterPushes(va: Vec3, vb: Vec3, n: Vec3, ka: real, kb: real)
    requires n.Dot(n) == 1.0
    ensures va.Add(n.Scale(ka)).Sub(vb.Sub(n.Scale(kb))).Dot(n) == va.Sub(vb).Dot(n) + ka + kb
  {
    DotAddScale(va, n, ka);
    DotAddScale(vb, n, kb);
    DotOfSub(va.Add(n.Scale(ka)), vb.Sub(n.Scale(kb)), n);
    DotOfSub(va, vb, n);
  }

  /** The two parts of the impulse add up to `-(1 + e)·vn`, which turns `vn` into `-e·vn`. */
  lemma ImpulseSplits(pa: Physics, pb: Physics, e: real, vn: real, j: real)
    requires pa.invMass + pb.invMass != 0.0
    requires j == ImpulseMagnitude(e, vn, pa.invMass + pb.invMass)
    ensures vn + Share(j, pa) + Share(j, pb) == Rebound(e, vn)
  {
    assert j * pa.invMass + j * pb.invMass == j * (pa.invMass + pb.invMass);
    assert j * (pa.invMass + pb.invMass) == -(1.0 + e) * vn;
  }

  /** The bodies' transforms and physics records, the state resolution changes. */
  datatype Bodies = Bodies(transforms: map<nat, Transform>, physics: map<nat, Physics>)

  /** `resolveCollision`: separation, then the impulse. */
  function ResolveOne(w: Bodies, c: CollisionPair): Bodies
  {
    Bodies(Separate(w.transforms, w.physics, c), Impulse(w.physics, c))
  }

  /** `resolveCollisions` with collision response on: every contact in order. */
  function ResolveAll(w: Bodies, cs: seq<CollisionPair>): (r: Bodies)
    ensures r.transforms.Keys == w.transforms.Keys && r.physics.Keys == w.physics.Keys
    decreases |cs|
  {
    if cs == [] then w else ResolveOne(ResolveAll(w, cs[..|cs| - 1]), cs[|cs| - 1])
  }

  /**
   * One `update` over the bodies `ids`: integrate, detect (only when there
   * is a body), resolve (only when there is a contact and response is on),
   * move; the contacts found are returned beside the new state.
   */
  function Step(w: Bodies, cs: map<nat, BoxCollider>, ids: seq<nat>, g: Vec3, dt: real, broadPhase: bool,
                response: bool, canLayersInteract: Option<(nat, nat) -> bool>): (Bodies, seq<CollisionPair>)
  {
    var ps1 := IntegrateAll(w.physics, ids, g, dt);
    var contacts := if ids == [] then [] else Contacts(w.transforms, cs, canLayersInteract, Candidates(w.transforms, cs, broadPhase, ids));
    var w2 := if contacts != [] && response then ResolveAll(Bodies(w.transforms, ps1), contacts) else Bodies(w.transforms, ps1);
    (Bodies(MoveAll(w2.transforms, w2.physics, ids, dt), w2.physics), contacts)
  }

  // ------------------------------------------------------------ static bodies

  /** Every static body of `w` has the same transform and physics record in `v`. */
  ghost predicate StaticKept(w: Bodies, v: Bodies)
  {
    forall id :: id in w.physics && w.physics[id].isStatic ==>
      id in v.physics && v.physics[id] == w.physics[id]
      && (id in w.transforms ==> id in v.transforms && v.transforms[id] == w.transforms[id])
  }

  lemma StaticKeptTrans(u: Bodies, v: Bodies, w: Bodies)
    requires StaticKept(u, v) && StaticKept(v, w)
    ensures StaticKept(u, w)
  {
  }

  lemma ResolveOneKeepsStatic(w: Bodies, c: CollisionPair)
    ensures StaticKept(w, ResolveOne(w, c))
  {
  }

  lemma {:induction false} ResolveAllKeepsStatic(w: Bodies, cs: seq<CollisionPair>)
    ensures StaticKept(w, ResolveAll(w, cs))
    decreases |cs|
  {
    if cs != [] {
      ResolveAllKeepsStatic(w, cs[..|cs| - 1]);
      ResolveOneKeepsStatic(ResolveAll(w, cs[..|cs| - 1]), cs[|cs| - 1]);
      StaticKeptTrans(w, ResolveAll(w, cs[..|cs| - 1]), ResolveAll(w, cs));
    }
  }

  lemma {:induction false} IntegrateAllKeepsStatic(ps: map<nat, Physics>, ids: seq<nat>, g: Vec3, dt: real)
    ensures forall id :: id in ps && ps[id].isStatic ==> IntegrateAll(ps, ids, g, dt)[id] == ps[id]
    decreases |ids|
  {
    if ids != [] {
      IntegrateAllKeepsStatic(ps, ids[..|ids| - 1], g, dt);
    }
  }

  lemma {:induction false} MoveAllKeepsStatic(ts: map<nat, Transform>, ps: map<nat, Physics>, ids: seq<nat>, dt: real)
    ensures forall id :: id in ts && id in ps && ps[id].isStatic ==> MoveAll(ts, ps, ids, dt)[id] == ts[id]
    decreases |ids|
  {
    if ids != [] {
      MoveAllKeepsStatic(ts, ps, ids[..|ids| - 1], dt);
    }
  }

  /** No step of an update ever changes a static body. */
  lemma StepKeepsStatic(w: Bodies, cs: map<nat, BoxCollider>, ids: seq<nat>, g: Vec3, dt: real, broadPhase: bool,
                        response: bool, canLayersInteract: Option<(nat, nat) -> bool>)
    ensures StaticKept(w, Step(w, cs, ids, g, dt, broadPhase, response, canLayersInteract).0)
  {
    var ps1 := IntegrateAll(w.physics, ids, g, dt);
    IntegrateAllKeepsStatic(w.physics, ids, g, dt);
    var w1 := Bodies(w.transforms, ps1);
    assert StaticKept(w, w1);
    var contacts := Step(w, cs, ids, g, dt, broadPhase, response, canLayersInteract).1;
    var w2 := if contacts != [] && response then ResolveAll(w1, contacts) else w1;
    ResolveAllKeepsStatic(w1, contacts);
    assert StaticKept(w1, w2);
    MoveAllKeepsStatic(w2.transforms, w2.physics, ids, dt);
    assert StaticKept(w2, Bodies(MoveAll(w2.transforms, w2.physics, ids, dt), w2.physics));
    StaticKeptTrans(w, w1, w2);
    StaticKeptTrans(w, w2, Bodies(MoveAll(w2.transforms, w2.physics, ids, dt), w2.physics));
  }

  /** With a layer callback refusing layer 0 there are no contacts, so no resolution either. */
  lemma StepWithLayerZeroRefused(w: Bodies, cs: map<nat, BoxCollider>, ids: seq<nat>, g: Vec3, dt: real,
                                 broadPhase: bool, response: bool, f: (nat, nat) -> bool)
    requires !f(0, 0)
    ensures var s := Step(w, cs, ids, g, dt, broadPhase, response, Some(f));
            s.1 == [] && s.0.physics == IntegrateAll(w.physics, ids, g, dt)
            && s.0.transforms == MoveAll(w.transforms, IntegrateAll(w.physics, ids, g, dt), ids, dt)
  {
    LayerZeroBlocksAll(w.transforms, cs, f, Candidates(w.transforms, cs, broadPhase, ids));
  }

  /**
   * With a callback refusing layer 0, an update over duplicate-free `ids`
   * finds no contact, integrates each listed record once and then moves each listed body by its
   * integrated velocity; every other record and transform is kept.
   */
  lemma StepWithLayerZeroRefusedMeaning(w: Bodies, cs: map<nat, BoxCollider>, ids: seq<nat>, g: Vec3, dt: real,
                                        broadPhase: bool, response: bool, f: (nat, nat) -> bool)
    requires !f(0, 0) && NoDup(ids)
    ensures var s := Step(w, cs, ids, g, dt, broadPhase, response, Some(f));
            s.1 == [] && s.0.physics.Keys == w.physics.Keys && s.0.transforms.Keys == w.transforms.Keys
            && (forall id :: id in w.physics ==>
                  s.0.physics[id] == if id in ids then Integrated(w.physics[id], g, dt) else w.physics[id])
            && (forall id :: id in w.transforms ==>
                  s.0.transforms[id] == if id in ids && id in w.physics then Moved(w.transforms[id], s.0.physics[id], dt)
                                        else w.transforms[id])
  {
    StepWithLayerZeroRefused(w, cs, ids, g, dt, broadPhase, response, f);
    IntegrateAllMeaning(w.physics, ids, g, dt);
    MoveAllMeaning(w.transforms, IntegrateAll(w.physics, ids, g, dt), ids, dt);
  }

  // ------------------------------------------------------------ movement in the store

  /** `updateTransformFromPhysics` for one entity, in the store; both ECS collision systems move bodies alike. */
  method UpdateTransformFromPhysics(ecs: Ecs.EcsManager, id: nat, dt: real)
    requires ecs.Valid()
    modifies ecs
    ensures ecs.Valid()
    ensures ecs.transforms == MoveAll(old(ecs.transforms), ecs.physics, [id], dt)
    ensures ecs.physics == old(ecs.physics) && ecs.colliders == old(ecs.colliders)
    ensures ecs.entities == old(ecs.entities) && ecs.nextEntityId == old(ecs.nextEntityId)
  {
    assert [id][..0] == [];
    if id !in ecs.transforms || id !in ecs.physics {
      return;
    }
    var t := ecs.transforms[id];
    var p := ecs.physics[id];
    if p.isStatic {
      return;
    }
    ecs.transforms := ecs.transforms[id := t.(position := t.position.Add(p.velocity.Scale(dt)))];
  }

  /** The final movement loop of `update`, shared by both ECS collision systems. */
  method MoveBodies(ecs: Ecs.EcsManager, ids: seq<nat>, dt: real)
    requires ecs.Valid()
    modifies ecs
    ensures ecs.Valid()
    ensures ecs.transforms == MoveAll(old(ecs.transforms), ecs.physics, ids, dt)
    ensures ecs.physics == old(ecs.physics) && ecs.colliders == old(ecs.colliders)
    ensures ecs.entities == old(ecs.entities) && ecs.nextEntityId == old(ecs.nextEntityId)
  {
    var i := 0;
    while i < |ids|
      invariant i <= |ids| && ecs.Valid()
      invariant ecs.transforms == MoveAll(old(ecs.transforms), ecs.physics, ids[..i], dt)
      invariant ecs.physics == old(ecs.physics) && ecs.colliders == old(ecs.colliders)
      invariant ecs.entities == old(ecs.entities) && ecs.nextEntityId == old(ecs.nextEntityId)
    {
      assert ids[..i + 1][..i] == ids[..i];
      UpdateTransformFromPhysics(ecs, ids[i], dt);
      i := i + 1;
    }
    assert ids[..i] == ids;
  }

  // ------------------------------------------------------------ the system

  class CpuPhysicsCollisionSystem {
    const ecs: Ecs.EcsManager
    var gravity: Vec3
    var broadPhaseEnabled: bool
    var collisionResponseEnabled: bool
    var canLayersInteract: Option<(nat, nat) -> bool>
    var activeCollisions: seq<CollisionPair>
    var lastCollisionCount: nat

    constructor (ecs: Ecs.EcsManager)
      ensures this.ecs == ecs
      ensures gravity == Vec3(0.0, -9.81, 0.0) && broadPhaseEnabled && collisionResponseEnabled
      ensures canLayersInteract == None && activeCollisions == [] && lastCollisionCount == 0
    {
      this.ecs := ecs;
      gravity := Vec3(0.0, -9.81, 0.0);
      broadPhaseEnabled := true;
      collisionResponseEnabled := true;
      canLayersInteract := None;
      activeCollisions := [];
      lastCollisionCount := 0;
    }

    method SetLayerInteractionCallback(f: Option<(nat, nat) -> bool>)
      modifies this
      ensures canLayersInteract == f
      ensures gravity == old(gravity) && broadPhaseEnabled == old(broadPhaseEnabled)
      ensures collisionResponseEnabled == old(collisionResponseEnabled)
      ensures activeCollisions == old(activeCollisions) && lastCollisionCount == old(lastCollisionCount)
    {
      canLayersInteract := f;
    }

    method SetGravity(x: real, y: real, z: real)
      modifies this
      ensures gravity == Vec3(x, y, z)
      ensures canLayersInteract == old(canLayersInteract) && broadPhaseEnabled == old(broadPhaseEnabled)
      ensures collisionResponseEnabled == old(collisionResponseEnabled)
      ensures activeCollisions == old(activeCollisions) && lastCollisionCount == old(lastCollisionCount)
    {
      gravity := Vec3(x, y, z);
    }

    method SetBroadPhaseEnabled(b: bool)
      modifies this
      ensures broadPhaseEnabled == b
      ensures gravity == old(gravity) && canLayersInteract == old(canLayersInteract)
      ensures collisionResponseEnabled == old(collisionResponseEnabled)
      ensures activeCollisions == old(activeCollisions) && lastCollisionCount == old(lastCollisionCount)
    {
      broadPhaseEnabled := b;
    }

    method SetCollisionResponseEnabled(b: bool)
      modifies this
      ensures collisionResponseEnabled == b
      ensures gravity == old(gravity) && canLayersInteract == old(canLayersInteract)
      ensures broadPhaseEnabled == old(broadPhaseEnabled)
      ensures activeCollisions == old(activeCollisions) && lastCollisionCount == old(lastCollisionCount)
    {
      collisionResponseEnabled := b;
    }

    /** `getCollidingEntities` over the contacts of the last update. */
    method GetCollidingEntities(id: nat) returns (r: seq<nat>)
      ensures r == Partners(activeCollisions, id)
    {
      r := CollidingEntities(activeCollisions, id);
    }

    /** `areEntitiesColliding` over the contacts of the last update. */
    method AreEntitiesColliding(a: nat, b: nat) returns (found: bool)
      ensures found == Joined(activeCollisions, a, b)
    {
      found := EntitiesColliding(activeCollisions, a, b);
    }

    /** `integratePhysics` (with `applyGravity`) for one entity, in the store. */
    method IntegratePhysics(id: nat, dt: real)
      requires ecs.Valid()
      modifies ecs
      ensures ecs.Valid()
      ensures ecs.physics == IntegrateAll(old(ecs.physics), [id], gravity, dt)
      ensures ecs.transforms == old(ecs.transforms) && ecs.colliders == old(ecs.colliders)
      ensures ecs.entities == old(ecs.entities) && ecs.nextEntityId == old(ecs.nextEntityId)
    {
      assert [id][..0] == [];
      if id !in ecs.physics {
        return;
      }
      var p := ecs.physics[id];
      if p.isStatic {
        return;
      }
      var v := p.velocity;
      if p.useGravity && p.invMass > 0.0 {
        v := v.Add(gravity.Scale(dt));
      }
      ecs.physics := ecs.physics[id := p.(velocity := v.Scale(Damping), angularVelocity := p.angularVelocity.Scale(Damping))];
    }

    /** The integration loop of `update`. */
    method IntegrateBodies(ids: seq<nat>, dt: real)
      requires ecs.Valid()
      modifies ecs
      ensures ecs.Valid()
      ensures ecs.physics == IntegrateAll(old(ecs.physics), ids, gravity, dt)
      ensures ecs.transforms == old(ecs.transforms) && ecs.colliders == old(ecs.colliders)
      ensures ecs.entities == old(ecs.entities) && ecs.nextEntityId == old(ecs.nextEntityId)
    {
      var i := 0;
      while i < |ids|
        invariant i <= |ids| && ecs.Valid()
        invariant ecs.physics == IntegrateAll(old(ecs.physics), ids[..i], gravity, dt)
        invariant ecs.transforms == old(ecs.transforms) && ecs.colliders == old(ecs.colliders)
        invariant ecs.entities == old(ecs.entities) && ecs.nextEntityId == old(ecs.nextEntityId)
      {
        assert ids[..i + 1][..i] == ids[..i];
        IntegratePhysics(ids[i], dt);
        i := i + 1;
      }
      assert ids[..i] == ids;
    }

    /** `broadPhaseDetection`: the `i < j` pairs whose boxes overlap. */
    method BroadPhaseDetection(es: seq<nat>) returns (pairs: seq<(nat, nat)>)
      ensures pairs == Candidates(ecs.transforms, ecs.colliders, true, es)
    {
      pairs := Pairs.EnumeratePairs(es, OverlapKeep(ecs.transforms, ecs.colliders));
    }

    /**
     * `detectCollisions`: appends the narrow-phase contact of every candidate
     * pair the layer filter allows.
     */
    method DetectCollisions(es: seq<nat>)
      modifies this
      ensures activeCollisions == old(activeCollisions)
                + Contacts(ecs.transforms, ecs.colliders, canLayersInteract,
                           Candidates(ecs.transforms, ecs.colliders, broadPhaseEnabled, es))
      ensures gravity == old(gravity) && canLayersInteract == old(canLayersInteract)
      ensures broadPhaseEnabled == old(broadPhaseEnabled) && collisionResponseEnabled == old(collisionResponseEnabled)
      ensures lastCollisionCount == old(lastCollisionCount)
    {
      var pairs: seq<(nat, nat)>;
      if broadPhaseEnabled {
        pairs := BroadPhaseDetection(es);
      } else {
        pairs := Pairs.EnumeratePairs(es, AnyPair());
      }
      var found := NarrowPhaseAll(pairs);
      activeCollisions := activeCollisions + found;
    }

    /** The narrow-phase loop of `detectCollisions`. */
    method NarrowPhaseAll(pairs: seq<(nat, nat)>) returns (found: seq<CollisionPair>)
      ensures found == Contacts(ecs.transforms, ecs.colliders, canLayersInteract, pairs)
    {
      found := [];
      var i := 0;
      while i < |pairs|
        invariant i <= |pairs|
        invariant found == Contacts(ecs.transforms, ecs.colliders, canLayersInteract, pairs[..i])
      {
        assert pairs[..i + 1][..i] == pairs[..i];
        var (a, b) := pairs[i];
        if CanEntitiesCollide(canLayersInteract, a, b) {
          var c := NarrowPhase(ecs.transforms, ecs.colliders, a, b);
          if c.Some? {
            found := found + [c.value];
          }
        }
        i := i + 1;
      }
      assert pairs[..i] == pairs;
    }

    /** `separateEntities` on the store. */
    method SeparateEntities(c: CollisionPair)
      requires ecs.Valid()
      modifies ecs
      ensures ecs.Valid()
      ensures ecs.transforms == Separate(old(ecs.transforms), ecs.physics, c)
      ensures ecs.physics == old(ecs.physics) && ecs.colliders == old(ecs.colliders)
      ensures ecs.entities == old(ecs.entities) && ecs.nextEntityId == old(ecs.nextEntityId)
    {
      var a, b := c.entityA, c.entityB;
      var ts, ps := ecs.transforms, ecs.physics;
      if !(a in ts && b in ts && a in ps && b in ps) {
        return;
      }
      var pa, pb := ps[a], ps[b];
      var total := pa.invMass + pb.invMass;
      if total <= 0.0 {
        return;
      }
      var sepA := SeparationShare(pa.invMass, total, c.penetrationDepth);
      var sepB := SeparationShare(pb.invMass, total, c.penetrationDepth);
      if !pa.isStatic {
        var ta := ts[a];
        ts := ts[a := ta.(position := ta.position.Add(c.normal.Scale(sepA)))];
      }
      if !pb.isStatic {
        var tb := ts[b];
        ts := ts[b := tb.(position := tb.position.Sub(c.normal.Scale(sepB)))];
      }
      assert ts == Separate(ecs.transforms, ps, c);
      ecs.transforms := ts;
    }

    /** `applyCollisionImpulse` on the store, with the zero-sum guard. */
    method ApplyCollisionImpulse(c: CollisionPair)
      requires ecs.Valid()
      modifies ecs
      ensures ecs.Valid()
      ensures ecs.physics == Impulse(old(ecs.physics), c)
      ensures ecs.transforms == old(ecs.transforms) && ecs.colliders == old(ecs.colliders)
      ensures ecs.entities == old(ecs.entities) && ecs.nextEntityId == old(ecs.nextEntityId)
    {
      var a, b := c.entityA, c.entityB;
      var ps := ecs.physics;
      if !(a in ps && b in ps) {
        return;
      }
      var pa, pb := ps[a], ps[b];
      var vn := NormalVelocity(pa, pb, c.normal);
      if vn > 0.0 {
        return;
      }
      var e := MinR(pa.restitution, pb.restitution);
      var total := pa.invMass + pb.invMass;
      if total == 0.0 {
        return;
      }
      var j := ImpulseMagnitude(e, vn, total);
      if !pa.isStatic {
        ps := ps[a := pa.(velocity := pa.velocity.Add(c.normal.Scale(Share(j, pa))))];
      }
      var pb1 := ps[b];
      if !pb1.isStatic {
        ps := ps[b := pb1.(velocity := pb1.velocity.Sub(c.normal.Scale(Share(j, pb1))))];
      }
      assert ps == Impulse(ecs.physics, c);
      ecs.physics := ps;
    }

    /** `resolveCollision`. */
    method ResolveCollision(c: CollisionPair)
      requires ecs.Valid()
      modifies ecs
      ensures ecs.Valid()
      ensures Bodies(ecs.transforms, ecs.physics) == ResolveOne(Bodies(old(ecs.transforms), old(ecs.physics)), c)
      ensures ecs.colliders == old(ecs.colliders)
      ensures ecs.entities == old(ecs.entities) && ecs.nextEntityId == old(ecs.nextEntityId)
    {
      SeparateEntities(c);
      ApplyCollisionImpulse(c);
    }

    /** `resolveCollisions`: every active contact in order, when collision response is on. */
    method ResolveCollisions()
      requires ecs.Valid()
      modifies ecs
      ensures ecs.Valid()
      ensures Bodies(ecs.transforms, ecs.physics)
                == if collisionResponseEnabled then ResolveAll(Bodies(old(ecs.transforms), old(ecs.physics)), activeCollisions)
                   else Bodies(old(ecs.transforms), old(ecs.physics))
      ensures ecs.colliders == old(ecs.colliders)
      ensures ecs.entities == old(ecs.entities) && ecs.nextEntityId == old(ecs.nextEntityId)
    {
      ghost var w := Bodies(ecs.transforms, ecs.physics);
      var i := 0;
      while i < |activeCollisions|
        invariant i <= |activeCollisions| && ecs.Valid()
        invariant Bodies(ecs.transforms, ecs.physics)
                    == if collisionResponseEnabled then ResolveAll(w, activeCollisions[..i]) else w
        invariant ecs.colliders == old(ecs.colliders)
        invariant ecs.entities == old(ecs.entities) && ecs.nextEntityId == old(ecs.nextEntityId)
      {
        assert activeCollisions[..i + 1][..i] == activeCollisions[..i];
        if collisionResponseEnabled {
          ResolveCollision(activeCollisions[i]);
        }
        i := i + 1;
      }
      assert activeCollisions[..i] == activeCollisions;
    }

    /** The physics entities of `update`: the transform owners that also own the other two. */
    method PhysicsEntities() returns (ids: seq<nat>)
      requires ecs.Valid()
      ensures NoDup(ids)
      ensures forall e :: e in ids <==> ecs.OwnsAll(e)
    {
      var ks := ecs.EntitiesWithTransform();
      ghost var keep := ecs.transforms.Keys * ecs.physics.Keys * ecs.colliders.Keys;
      ids := [];
      var i := 0;
      while i < |ks|
        invariant i <= |ks|
        invariant ids == Filter(ks[..i], keep)
      {
        var e := ks[i];
        FilterSnoc(ks[..i], e, keep);
        assert ks[..i + 1] == ks[..i] + [e];
        if ecs.HasTransform(e) && ecs.HasPhysics(e) && ecs.HasBoxCollider(e) {
          ids := ids + [e];
        }
        i := i + 1;
      }
      assert ks[..i] == ks;
      FilterNoDup(ks, keep);
      FilterMembers(ks, keep);
    }

    /**
     * `update`: the physics entities are returned in the order the store
     * listed them; the store and the contacts become those of one `Step`.
     */
    method Update(dt: real) returns (bodies: seq<nat>)
      requires ecs.Valid()
      modifies this, ecs
      ensures ecs.Valid()
      ensures NoDup(bodies) && forall e :: e in bodies <==> old(ecs.OwnsAll(e))
      ensures var s := Step(Bodies(old(ecs.transforms), old(ecs.physics)), old(ecs.colliders), bodies, gravity, dt,
                            broadPhaseEnabled, collisionResponseEnabled, canLayersInteract);
              Bodies(ecs.transforms, ecs.physics) == s.0 && activeCollisions == s.1
      ensures lastCollisionCount == |activeCollisions|
      ensures ecs.colliders == old(ecs.colliders)
      ensures ecs.entities == old(ecs.entities) && ecs.nextEntityId == old(ecs.nextEntityId)
      ensures gravity == old(gravity) && canLayersInteract == old(canLayersInteract)
      ensures broadPhaseEnabled == old(broadPhaseEnabled) && collisionResponseEnabled == old(collisionResponseEnabled)
    {
      bodies := PhysicsEntities();
      ghost var w0 := Bodies(ecs.transforms, ecs.physics);
      activeCollisions := [];
      IntegrateBodies(bodies, dt);
      ghost var w1 := Bodies(ecs.transforms, ecs.physics);
      assert w1 == Bodies(w0.transforms, IntegrateAll(w0.physics, bodies, gravity, dt));
      if |bodies| > 0 {
        DetectCollisions(bodies);
      }
      ghost var contacts := activeCollisions;
      assert contacts == if bodies == [] then [] else
        Contacts(w0.transforms, ecs.colliders, canLayersInteract, Candidates(w0.transforms, ecs.colliders, broadPhaseEnabled, bodies));
      if |activeCollisions| > 0 {
        ResolveCollisions();
      }
      ghost var w2 := Bodies(ecs.transforms, ecs.physics);
      assert w2 == if contacts != [] && collisionResponseEnabled then ResolveAll(w1, contacts) else w1;
      MoveBodies(ecs, bodies, dt);
      assert Bodies(ecs.transforms, ecs.physics) == Bodies(MoveAll(w2.transforms, w2.physics, bodies, dt), w2.physics);
      lastCollisionCount := |activeCollisions|;
    }
  }
}
