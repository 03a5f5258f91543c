// The simplified ECS collision system built on the base-system lifecycle:
// velocity integration without damping, every unordered pair of bodies as a
// candidate, an inclusive box-overlap test that yields a fixed contact naming
// entity 0, a separation that ignores mass and a fixed impulse.
module EnhancedCollision {
  import opened Common
  import opened Components
  import Ecs
  import Pairs
  import EcsCollision
  import opened EcsContacts
  import opened ConcreteComponents
  import BaseSystem

  /** `getRequiredComponents`. */
  const RequiredComponents: seq<ComponentType> := [TransformType, PhysicsType, BoxColliderType]

  /** The depth every contact reports. */
  const ContactDepth: real := 0.1
  /** The normal every contact reports. */
  const ContactNormal: Vec3 := Vec3(1.0, 0.0, 0.0)
  /** The size of the impulse, along the normal, that each body receives. */
  const ImpulseStep: real := 0.5

  // ------------------------------------------------------------ integration

  /**
   * `integratePhysics` on one record: a static body or one without gravity
   * keeps its record; otherwise gravity·dt is added to its velocity, with no
   * damping and whatever its inverse mass.
   */
  function Integrated(p: Physics, g: Vec3, dt: real): Physics
  {
    if p.isStatic || !p.useGravity then p else p.(velocity := p.velocity.Add(g.Scale(dt)))
  }

  /** Only the linear velocity ever changes, and it changes by exactly gravity·dt. */
  lemma IntegratedMeaning(p: Physics, g: Vec3, dt: real)
    ensures p.isStatic || !p.useGravity ==> Integrated(p, g, dt) == p
    ensures Integrated(p, g, dt) == p.(velocity := Integrated(p, g, dt).velocity)
    ensures !p.isStatic && p.useGravity ==> Integrated(p, g, dt).velocity.Sub(p.velocity) == g.Scale(dt)
  {
  }

  /**
   * The ECS collision system integrates a moving body the same way and then
   * damps it; the two differ only by that damping, except that the ECS one
   * skips gravity for a body of inverse mass 0.
   */
  lemma DampingIsTheDifference(p: Physics, g: Vec3, dt: real)
    requires !p.isStatic && (p.useGravity ==> p.invMass > 0.0)
    ensures EcsCollision.Integrated(p, g, dt).velocity == Integrated(p, g, dt).velocity.Scale(EcsCollision.Damping)
  {
  }

  /** `integratePhysics` for the listed entities, in order; an entity needs both a record and a transform. */
  function IntegrateAll(ts: map<nat, Transform>, ps: map<nat, Physics>, ids: seq<nat>, g: Vec3, dt: real)
    : (r: map<nat, Physics>)
    ensures r.Keys == ps.Keys
    decreases |ids|
  {
    if ids == [] then ps
    else
      var q := IntegrateAll(ts, ps, ids[..|ids| - 1], g, dt);
      var id := ids[|ids| - 1];
      if id in q && id in ts then q[id := Integrated(q[id], g, dt)] else q
  }

  /** Each listed entity with a transform is integrated once; every other record is untouched. */
  lemma {:induction false} IntegrateAllMeaning(ts: map<nat, Transform>, ps: map<nat, Physics>, ids: seq<nat>,
                                               g: Vec3, dt: real)
    requires NoDup(ids)
    ensures forall id :: id in ps ==>
              IntegrateAll(ts, ps, ids, g, dt)[id]
                == if id in ids && id in ts then Integrated(ps[id], g, dt) else ps[id]
    decreases |ids|
  {
    if ids != [] {
      var init := ids[..|ids| - 1];
      assert ids == init + [ids[|ids| - 1]];
      NoDupInit(ids);
      IntegrateAllMeaning(ts, ps, init, g, dt);
    }
  }

  /**
   * `applyGravity` (never called by `update`): only the vertical component
   * of gravity, for a non-static body that uses gravity.
   */
  function GravityApplied(p: Physics, g: Vec3, dt: real): Physics
  {
    if p.useGravity && !p.isStatic then p.(velocity := p.velocity.(y := p.velocity.y + g.y * dt)) else p
  }

  /**
   * `applyGravity` is `integratePhysics` with gravity's horizontal parts
   * dropped, so the two agree for a vertical gravity.
   */
  lemma GravityAppliedIsVerticalIntegration(p: Physics, g: Vec3, dt: real)
    ensures GravityApplied(p, g, dt) == Integrated(p, Vec3(0.0, g.y, 0.0), dt)
    ensures g.x == 0.0 && g.z == 0.0 ==> GravityApplied(p, g, dt) == Integrated(p, g, dt)
  {
    if p.useGravity && !p.isStatic {
      assert Vec3(0.0, g.y, 0.0).Scale(dt) == Vec3(0.0, g.y * dt, 0.0);
    }
  }

  // ------------------------------------------------------------ narrow phase

  /**
   * `checkBoxBoxCollision`: a contact whenever the boxes overlap
   * inclusively, with fixed depth and normal, the midpoint of the centres as
   * its point, and entity ids left at 0.
   */
  function CheckBoxBox(ta: Transform, ca: BoxCollider, tb: Transform, cb: BoxCollider): Option<CollisionPair>
  {
    if !AabbOverlap(CalculateAabb(ta, ca), CalculateAabb(tb, cb)) then None
    else Some(CollisionPair(0, 0, ContactDepth, ContactNormal, ta.position.Add(tb.position).Scale(0.5)))
  }

  /**
   * There is a contact exactly when no axis has a negative penetration: the
   * boxes overlap or merely touch.
   */
  lemma CheckBoxBoxIffTouching(ta: Transform, ca: BoxCollider, tb: Transform, cb: BoxCollider)
    ensures var p := Penetrations(ta, ca, tb, cb);
            (CheckBoxBox(ta, ca, tb, cb).Some? <==> p.x >= 0.0 && p.y >= 0.0 && p.z >= 0.0)
  {
    AabbOverlapIffPenetrations(ta, ca, tb, cb);
  }

  /**
   * A contact names entity 0 twice and reports depth 0.1 whatever the real
   * overlap, a unit normal along x, and a point as far from one centre as
   * from the other.
   */
  lemma CheckBoxBoxFixedContact(ta: Transform, ca: BoxCollider, tb: Transform, cb: BoxCollider)
    ensures var r := CheckBoxBox(ta, ca, tb, cb);
            r.Some? ==> r.value.entityA == 0 && r.value.entityB == 0
                        && r.value.penetrationDepth == 0.1 && r.value.normal == Vec3(1.0, 0.0, 0.0)
                        && r.value.normal.Dot(r.value.normal) == 1.0
                        && r.value.contactPoint.Sub(ta.position) == tb.position.Sub(r.value.contactPoint)
  {
  }

  /** The order of the two boxes does not matter. */
  lemma CheckBoxBoxSymmetric(ta: Transform, ca: BoxCollider, tb: Transform, cb: BoxCollider)
    ensures CheckBoxBox(ta, ca, tb, cb) == CheckBoxBox(tb, cb, ta, ca)
  {
    AabbOverlapSymmetric(CalculateAabb(ta, ca), CalculateAabb(tb, cb));
    assert ta.position.Add(tb.position) == tb.position.Add(ta.position);
  }

  /**
   * Every box pair the ECS collision system reports a contact for is
   * reported here too; here touching boxes collide as well.
   */
  lemma WeakerThanEcsNarrowPhase(ta: Transform, ca: BoxCollider, tb: Transform, cb: BoxCollider)
    ensures EcsCollision.CheckBoxBox(ta, ca, tb, cb).Some? ==> CheckBoxBox(ta, ca, tb, cb).Some?
    ensures var p := Penetrations(ta, ca, tb, cb);
            ((CheckBoxBox(ta, ca, tb, cb).Some? && EcsCollision.CheckBoxBox(ta, ca, tb, cb).None?)
              <==> p.x >= 0.0 && p.y >= 0.0 && p.z >= 0.0 && (p.x == 0.0 || p.y == 0.0 || p.z == 0.0))
  {
    EcsCollision.NarrowStricterThanBroad(ta, ca, tb, cb);
    AabbOverlapIffPenetrations(ta, ca, tb, cb);
  }

  /**
   * `narrowPhaseDetection`: no contact when a transform or a collider is
   * missing, otherwise the box test; a collider's enabled flag is not
   * consulted.
   */
  function NarrowPhase(ts: map<nat, Transform>, cs: map<nat, BoxCollider>, a: nat, b: nat): Option<CollisionPair>
  {
    if !(a in ts && b in ts && a in cs && b in cs) then None
    else CheckBoxBox(ts[a], cs[a], ts[b], cs[b])
  }

  /** Disabling or enabling any collider changes no narrow-phase result. */
  lemma NarrowPhaseIgnoresEnabled(ts: map<nat, Transform>, cs: map<nat, BoxCollider>, a: nat, b: nat,
                                  k: nat, enabled: bool)
    requires k in cs
    ensures NarrowPhase(ts, cs[k := cs[k].(enabled := enabled)], a, b) == NarrowPhase(ts, cs, a, b)
  {
    var cs' := cs[k := cs[k].(enabled := enabled)];
    if a in ts && b in ts && a in cs && b in cs {
      assert HalfExtents(ts[a], cs'[a]) == HalfExtents(ts[a], cs[a]);
      assert HalfExtents(ts[b], cs'[b]) == HalfExtents(ts[b], cs[b]);
    }
  }

  /** The contacts `detectCollisions` appends for the candidate pairs, in order. */
  function Contacts(ts: map<nat, Transform>, cs: map<nat, BoxCollider>,
                    canLayersInteract: Option<(nat, nat) -> bool>, pairs: seq<(nat, nat)>): (r: seq<CollisionPair>)
    ensures |r| <= |pairs|
    decreases |pairs|
  {
    if pairs == [] then []
    else
      var (a, b) := pairs[|pairs| - 1];
      Contacts(ts, cs, canLayersInteract, pairs[..|pairs| - 1])
        + if CanEntitiesCollide(canLayersInteract, a, b) && NarrowPhase(ts, cs, a, b).Some?
          then [NarrowPhase(ts, cs, a, b).value] else []
  }

  /** Every contact names entity 0 on both sides. */
  ghost predicate AllNameZero(cs: seq<CollisionPair>)
  {
    forall k :: 0 <= k < |cs| ==> cs[k].entityA == 0 && cs[k].entityB == 0
  }

  /**
   * Every contact is the narrow-phase result of a candidate pair the layer
   * filter allows, and every such result is a contact; all of them name
   * entity 0 and carry the fixed depth and normal.
   */
  lemma {:induction false} ContactsMembers(ts: map<nat, Transform>, cs: map<nat, BoxCollider>,
                                           canLayersInteract: Option<(nat, nat) -> bool>, pairs: seq<(nat, nat)>)
    ensures AllNameZero(Contacts(ts, cs, canLayersInteract, pairs))
    ensures forall c :: c in Contacts(ts, cs, canLayersInteract, pairs) ==>
              c.penetrationDepth == ContactDepth && c.normal == ContactNormal
              && exists p :: p in pairs && CanEntitiesCollide(canLayersInteract, p.0, p.1)
                             && NarrowPhase(ts, cs, p.0, p.1) == Some(c)
    ensures forall p :: p in pairs && CanEntitiesCollide(canLayersInteract, p.0, p.1)
                        && NarrowPhase(ts, cs, p.0, p.1).Some? ==>
              NarrowPhase(ts, cs, p.0, p.1).value in Contacts(ts, cs, canLayersInteract, pairs)
    decreases |pairs|
  {
    if pairs != [] {
      var init := pairs[..|pairs| - 1];
      ContactsMembers(ts, cs, canLayersInteract, init);
      assert pairs == init + [pairs[|pairs| - 1]];
      var r := Contacts(ts, cs, canLayersInteract, pairs);
      var r0 := Contacts(ts, cs, canLayersInteract, init);
      forall k | 0 <= k < |r| ensures r[k].entityA == 0 && r[k].entityB == 0 {
        if k < |r0| {
          assert r[k] == r0[k];
        }
      }
    }
  }

  /**
   * No real entity (ids start at 1) is ever reported colliding: its partner
   * list is empty and no contact joins it with anything.
   */
  lemma ZeroNamedContactsJoinNoEntity(cs: seq<CollisionPair>, id: nat)
    requires AllNameZero(cs) && id != 0
    ensures Partners(cs, id) == []
    ensures forall b :: !Joined(cs, id, b)
  {
    PartnersOfUnnamed(cs, id);
  }

  // ------------------------------------------------------------ broad phase

  /** `broadPhaseDetection`: every pair `(es[i], es[j])` with `i < j`. */
  function AllCandidates(es: seq<nat>): seq<(nat, nat)>
  {
    Pairs.AllPairs(es, EcsCollision.AnyPair())
  }

  /** The candidates are exactly the pairs of two positions `i < j`, and there are `n·(n − 1)/2` of them. */
  lemma AllCandidatesMeaning(es: seq<nat>)
    ensures forall i, j :: 0 <= i < j < |es| ==> (es[i], es[j]) in AllCandidates(es)
    ensures forall p :: p in AllCandidates(es) ==> exists i, j :: 0 <= i < j < |es| && p == (es[i], es[j])
    ensures 2 * |AllCandidates(es)| == |es| * (|es| - 1)
  {
    Pairs.AllPairsMembers(es, EcsCollision.AnyPair());
    forall i, j | 0 <= i < j < |es| ensures (es[i], es[j]) in AllCandidates(es) {
      assert EcsCollision.AnyPair()(es[i], es[j]);
    }
    Pairs.AllPairsLength(es, EcsCollision.AnyPair());
  }

  // ------------------------------------------------------------ resolution

  /** Each body's part of the depth: half of it. */
  function HalfDepth(c: CollisionPair): real
  {
    c.penetrationDepth * 0.5
  }

  /**
   * `separateEntities`: A is moved against the normal and B along it, each
   * by half the depth, whatever their masses and even when static.
   */
  function Separate(ts: map<nat, Transform>, c: CollisionPair): (r: map<nat, Transform>)
    ensures r.Keys == ts.Keys
  {
    var a, b := c.entityA, c.entityB;
    if !(a in ts && b in ts) then ts
    else
      var ts1 := ts[a := ts[a].(position := ts[a].position.Sub(c.normal.Scale(HalfDepth(c))))];
      ts1[b := ts1[b].(position := ts1[b].position.Add(c.normal.Scale(HalfDepth(c))))]
  }

  /**
   * For two distinct bodies the gap from A to B grows by the normal times
   * the full depth while the sum of the positions (their midpoint) stays;
   * with a unit normal the gap along it grows by exactly the depth. Only
   * positions change, and no other transform.
   */
  lemma SeparateMeaning(ts: map<nat, Transform>, c: CollisionPair)
    requires c.entityA in ts && c.entityB in ts && c.entityA != c.entityB
    ensures var r := Separate(ts, c);
            r[c.entityB].position.Sub(r[c.entityA].position)
              == ts[c.entityB].position.Sub(ts[c.entityA].position).Add(c.normal.Scale(c.penetrationDepth))
    ensures var r := Separate(ts, c);
            r[c.entityA].position.Add(r[c.entityB].position) == ts[c.entityA].position.Add(ts[c.entityB].position)
    ensures var r := Separate(ts, c);
            c.normal.Dot(c.normal) == 1.0 ==>
              r[c.entityB].position.Sub(r[c.entityA].position).Dot(c.normal)
                == ts[c.entityB].position.Sub(ts[c.entityA].position).Dot(c.normal) + c.penetrationDepth
    ensures var r := Separate(ts, c);
            r[c.entityA] == ts[c.entityA].(position := r[c.entityA].position)
            && r[c.entityB] == ts[c.entityB].(position := r[c.entityB].position)
            && forall k :: k in ts && k != c.entityA && k != c.entityB ==> r[k] == ts[k]
  {
    var n, h := c.normal, HalfDepth(c);
    var pa, pb := ts[c.entityA].position, ts[c.entityB].position;
    assert n.Scale(h).Add(n.Scale(h)) == n.Scale(c.penetrationDepth);
    assert pb.Add(n.Scale(h)).Sub(pa.Sub(n.Scale(h))) == pb.Sub(pa).Add(n.Scale(h).Add(n.Scale(h)));
    EcsCollision.DotAddScale(pb.Sub(pa), n, c.penetrationDepth);
  }

  /** `applyCollisionImpulse`: A loses half the normal from its velocity and B gains it, even when static. */
  function Impulse(ps: map<nat, Physics>, c: CollisionPair): (r: map<nat, Physics>)
    ensures r.Keys == ps.Keys
  {
    var a, b := c.entityA, c.entityB;
    if !(a in ps && b in ps) then ps
    else
      var ps1 := ps[a := ps[a].(velocity := ps[a].velocity.Sub(c.normal.Scale(ImpulseStep)))];
      ps1[b := ps1[b].(velocity := ps1[b].velocity.Add(c.normal.Scale(ImpulseStep)))]
  }

  /**
   * For two distinct bodies the velocity of B relative to A grows by the
   * whole normal while the sum of the velocities stays, whatever the masses;
   * only the linear velocities change, static flags included.
   */
  lemma ImpulseMeaning(ps: map<nat, Physics>, c: CollisionPair)
    requires c.entityA in ps && c.entityB in ps && c.entityA != c.entityB
    ensures var r := Impulse(ps, c);
            r[c.entityB].velocity.Sub(r[c.entityA].velocity)
              == ps[c.entityB].velocity.Sub(ps[c.entityA].velocity).Add(c.normal)
    ensures var r := Impulse(ps, c);
            r[c.entityA].velocity.Add(r[c.entityB].velocity) == ps[c.entityA].velocity.Add(ps[c.entityB].velocity)
    ensures var r := Impulse(ps, c);
            r[c.entityA] == ps[c.entityA].(velocity := r[c.entityA].velocity)
            && r[c.entityB] == ps[c.entityB].(velocity := r[c.entityB].velocity)
            && forall k :: k in ps && k != c.entityA && k != c.entityB ==> r[k] == ps[k]
  {
    var n := c.normal;
    assert n.Scale(ImpulseStep).Add(n.Scale(ImpulseStep)) == n;
  }

  /** `resolveCollision`: separation, then the impulse. */
  function ResolveOne(w: EcsCollision.Bodies, c: CollisionPair): EcsCollision.Bodies
  {
    EcsCollision.Bodies(Separate(w.transforms, c), Impulse(w.physics, c))
  }

  /** `resolveCollisions` with collision response on: every contact in order. */
  function ResolveAll(w: EcsCollision.Bodies, cs: seq<CollisionPair>): (r: EcsCollision.Bodies)
    ensures r.transforms.Keys == w.transforms.Keys && r.physics.Keys == w.physics.Keys
    decreases |cs|
  {
    if cs == [] then w else ResolveOne(ResolveAll(w, cs[..|cs| - 1]), cs[|cs| - 1])
  }

  /** A contact of a body with itself moves it back and forth by the same amount: nothing changes. */
  lemma ResolveSelfContact(w: EcsCollision.Bodies, c: CollisionPair)
    requires c.entityA == c.entityB
    ensures ResolveOne(w, c) == w
  {
    var a := c.entityA;
    if a in w.transforms {
      var t := w.transforms[a];
      var d := c.normal.Scale(HalfDepth(c));
      assert t.position.Sub(d).Add(d) == t.position;
      assert Separate(w.transforms, c) == w.transforms[a := t];
    }
    if a in w.physics {
      var p := w.physics[a];
      var d := c.normal.Scale(ImpulseStep);
      assert p.velocity.Sub(d).Add(d) == p.velocity;
      assert Impulse(w.physics, c) == w.physics[a := p];
    }
  }

  /** Resolving contacts that all join a body with itself changes nothing. */
  lemma {:induction false} ResolveZeroNamedChangesNothing(w: EcsCollision.Bodies, cs: seq<CollisionPair>)
    requires AllNameZero(cs)
    ensures ResolveAll(w, cs) == w
    decreases |cs|
  {
    if cs != [] {
      var init := cs[..|cs| - 1];
      assert AllNameZero(init) by {
        forall k | 0 <= k < |init| ensures init[k].entityA == 0 && init[k].entityB == 0 {
          assert init[k] == cs[k];
        }
      }
      ResolveZeroNamedChangesNothing(w, init);
      ResolveSelfContact(w, cs[|cs| - 1]);
    }
  }

  // ------------------------------------------------------------ one update

  /**
   * `updateInternal` over the bodies `ids`: integrate, detect (only with the
   * broad phase on and two bodies or more), resolve (only when there is a
   * contact and response is on), move; the contacts found are returned
   * beside the new state.
   */
  function Step(w: EcsCollision.Bodies, cs: map<nat, BoxCollider>, ids: seq<nat>, g: Vec3, dt: real,
                broadPhase: bool, response: bool, canLayersInteract: Option<(nat, nat) -> bool>)
    : (EcsCollision.Bodies, seq<CollisionPair>)
  {
    var ps1 := IntegrateAll(w.transforms, w.physics, ids, g, dt);
    var contacts := if !broadPhase || |ids| < 2 then []
                    else Contacts(w.transforms, cs, canLayersInteract, AllCandidates(ids));
    var w2 := if contacts != [] && response then ResolveAll(EcsCollision.Bodies(w.transforms, ps1), contacts)
              else EcsCollision.Bodies(w.transforms, ps1);
    (EcsCollision.Bodies(EcsCollision.MoveAll(w2.transforms, w2.physics, ids, dt), w2.physics), contacts)
  }

  /**
   * Whatever it detects, an update ends with the bodies integrated and moved
   * only: resolution never changes a body, and no real entity is reported
   * colliding.
   */
  lemma StepNeverResolves(w: EcsCollision.Bodies, cs: map<nat, BoxCollider>, ids: seq<nat>, g: Vec3, dt: real,
                          broadPhase: bool, response: bool, canLayersInteract: Option<(nat, nat) -> bool>)
    ensures var s := Step(w, cs, ids, g, dt, broadPhase, response, canLayersInteract);
            var ps1 := IntegrateAll(w.transforms, w.physics, ids, g, dt);
            s.0 == EcsCollision.Bodies(EcsCollision.MoveAll(w.transforms, ps1, ids, dt), ps1)
    ensures AllNameZero(Step(w, cs, ids, g, dt, broadPhase, response, canLayersInteract).1)
  {
    var ps1 := IntegrateAll(w.transforms, w.physics, ids, g, dt);
    ContactsMembers(w.transforms, cs, canLayersInteract, AllCandidates(ids));
    var contacts := Step(w, cs, ids, g, dt, broadPhase, response, canLayersInteract).1;
    ResolveZeroNamedChangesNothing(EcsCollision.Bodies(w.transforms, ps1), contacts);
  }

  // ------------------------------------------------------------ unused helpers

  /** `calculateDistance`: the length of the difference, by the given square root. */
  function CalculateDistance(sqrt: real -> real, a: Vec3, b: Vec3): real
  {
    sqrt(a.Sub(b).LengthSq())
  }

  /** The distance is non-negative, squares to the squared difference and does not depend on the order. */
  lemma CalculateDistanceMeaning(sqrt: real -> real, a: Vec3, b: Vec3)
    requires IsSqrt(sqrt)
    ensures CalculateDistance(sqrt, a, b) >= 0.0
    ensures CalculateDistance(sqrt, a, b) * CalculateDistance(sqrt, a, b) == a.Sub(b).LengthSq()
    ensures CalculateDistance(sqrt, a, b) == CalculateDistance(sqrt, b, a)
  {
    var d := a.Sub(b);
    assert d.x * d.x >= 0.0 && d.y * d.y >= 0.0 && d.z * d.z >= 0.0;
    assert b.Sub(a).LengthSq() == d.LengthSq() by {
      assert (b.x - a.x) * (b.x - a.x) == d.x * d.x;
      assert (b.y - a.y) * (b.y - a.y) == d.y * d.y;
      assert (b.z - a.z) * (b.z - a.z) == d.z * d.z;
    }
  }

  /**
   * `calculateCollisionNormal`: the difference from A's centre to B's,
   * divided by its length when that is positive, left as it is otherwise.
   */
  function CollisionNormal(sqrt: real -> real, ta: Transform, tb: Transform): Vec3
  {
    var d := tb.position.Sub(ta.position);
    var len := sqrt(d.LengthSq());
    if len > 0.0 then Vec3(d.x / len, d.y / len, d.z / len) else d
  }

  /** The normal has unit length when the centres differ... */
  lemma CollisionNormalUnit(sqrt: real -> real, ta: Transform, tb: Transform)
    requires IsSqrt(sqrt) && ta.position != tb.position
    ensures CollisionNormal(sqrt, ta, tb).LengthSq() == 1.0
  {
    var d := tb.position.Sub(ta.position);
    assert d != Zero;
    LengthSqSign(d);
    var len := sqrt(d.LengthSq());
    RootSign(len, d.LengthSq());
    UnitAfterDivision(d, len);
  }

  /** ...and is the zero vector when they coincide. */
  lemma CollisionNormalCoincident(sqrt: real -> real, ta: Transform, tb: Transform)
    requires IsSqrt(sqrt) && ta.position == tb.position
    ensures CollisionNormal(sqrt, ta, tb) == Zero
  {
    SqrtZero(sqrt);
    ZeroRootNormal(sqrt, ta, tb);
  }

  /** The coincident case once the root of zero is known to be zero. */
  lemma ZeroRootNormal(sqrt: real -> real, ta: Transform, tb: Transform)
    requires sqrt(0.0) == 0.0 && ta.position == tb.position
    ensures CollisionNormal(sqrt, ta, tb) == Zero
  {
    var d := tb.position.Sub(ta.position);
    assert d == Zero;
    assert d.LengthSq() == 0.0 * 0.0 + 0.0 * 0.0 + 0.0 * 0.0;
  }

  // ------------------------------------------------------------ the system

  /** The base system's required-component test is, with these types, ownership of all three components. */
  lemma RequiredMeansOwnsAll(b: BaseSystem.BaseCpuPhysicsSystem, e: nat)
    requires b.ecs != null && b.required == RequiredComponents
    ensures b.HasRequired(e) <==> b.ecs.OwnsAll(e)
  {
    assert TransformType in b.required && PhysicsType in b.required && BoxColliderType in b.required;
  }

  class EnhancedCollisionSystem {
    /** The base-system part: lifecycle flags, filter and required-component checks. */
    const base: BaseSystem.BaseCpuPhysicsSystem
    const ecs: Ecs.EcsManager
    var gravity: Vec3
    var broadPhaseEnabled: bool
    var collisionResponseEnabled: bool
    var canLayersInteract: Option<(nat, nat) -> bool>
    var activeCollisions: seq<CollisionPair>
    var lastCollisionCount: nat

    /** The base part works on the same store with the three required types; every contact names entity 0. */
    ghost predicate Valid()
      reads this, base, ecs
    {
      base.ecs == ecs && base.required == RequiredComponents && base.Valid() && ecs.Valid()
      && AllNameZero(activeCollisions)
    }

    constructor (ecs: Ecs.EcsManager)
      requires ecs.Valid()
      ensures Valid() && fresh(base)
      ensures this.ecs == ecs && !base.initialized && base.enabled && base.filter == None
      ensures gravity == Vec3(0.0, -9.81, 0.0) && broadPhaseEnabled && collisionResponseEnabled
      ensures canLayersInteract == None && activeCollisions == [] && lastCollisionCount == 0
    {
      this.ecs := ecs;
      base := new BaseSystem.BaseCpuPhysicsSystem(ecs, RequiredComponents);
      gravity := Vec3(0.0, -9.81, 0.0);
      broadPhaseEnabled := true;
      collisionResponseEnabled := true;
      canLayersInteract := None;
      activeCollisions := [];
      lastCollisionCount := 0;
    }

    method SetLayerInteractionCallback(f: Option<(nat, nat) -> bool>)
      modifies this
      ensures canLayersInteract == f
      ensures gravity == old(gravity) && broadPhaseEnabled == old(broadPhaseEnabled)
      ensures collisionResponseEnabled == old(collisionResponseEnabled)
      ensures activeCollisions == old(activeCollisions) && lastCollisionCount == old(lastCollisionCount)
    {
      canLayersInteract := f;
    }

    method SetGravity(x: real, y: real, z: real)
      modifies this
      ensures gravity == Vec3(x, y, z)
      ensures canLayersInteract == old(canLayersInteract) && broadPhaseEnabled == old(broadPhaseEnabled)
      ensures collisionResponseEnabled == old(collisionResponseEnabled)
      ensures activeCollisions == old(activeCollisions) && lastCollisionCount == old(lastCollisionCount)
    {
      gravity := Vec3(x, y, z);
    }

    method SetBroadPhaseEnabled(b: bool)
      modifies this
      ensures broadPhaseEnabled == b
      ensures gravity == old(gravity) && canLayersInteract == old(canLayersInteract)
      ensures collisionResponseEnabled == old(collisionResponseEnabled)
      ensures activeCollisions == old(activeCollisions) && lastCollisionCount == old(lastCollisionCount)
    {
      broadPhaseEnabled := b;
    }

    method SetCollisionResponseEnabled(b: bool)
      modifies this
      ensures collisionResponseEnabled == b
      ensures gravity == old(gravity) && canLayersInteract == old(canLayersInteract)
      ensures broadPhaseEnabled == old(broadPhaseEnabled)
      ensures activeCollisions == old(activeCollisions) && lastCollisionCount == old(lastCollisionCount)
    {
      collisionResponseEnabled := b;
    }

    /** `getCollidingEntities`: empty for every real entity, since contacts name entity 0. */
    method GetCollidingEntities(id: nat) returns (r: seq<nat>)
      requires Valid()
      ensures r == Partners(activeCollisions, id)
      ensures id != 0 ==> r == []
    {
      r := CollidingEntities(activeCollisions, id);
      if id != 0 {
        ZeroNamedContactsJoinNoEntity(activeCollisions, id);
      }
    }

    /** `areEntitiesColliding`: false whenever a real entity is asked about. */
    method AreEntitiesColliding(a: nat, b: nat) returns (found: bool)
      requires Valid()
      ensures found == Joined(activeCollisions, a, b)
      ensures a != 0 || b != 0 ==> !found
    {
      found := EntitiesColliding(activeCollisions, a, b);
      if a != 0 {
        ZeroNamedContactsJoinNoEntity(activeCollisions, a);
      } else if b != 0 {
        ZeroNamedContactsJoinNoEntity(activeCollisions, b);
        PartnersIffJoined(activeCollisions, b, a);
      }
    }

    /** `integratePhysics` for one entity, in the store. */
    method IntegratePhysics(id: nat, dt: real)
      requires ecs.Valid()
      modifies ecs
      ensures ecs.Valid()
      ensures ecs.physics == IntegrateAll(ecs.transforms, old(ecs.physics), [id], gravity, dt)
      ensures ecs.transforms == old(ecs.transforms) && ecs.colliders == old(ecs.colliders)
      ensures ecs.entities == old(ecs.entities) && ecs.nextEntityId == old(ecs.nextEntityId)
    {
      assert [id][..0] == [];
      if id !in ecs.physics || id !in ecs.transforms {
        return;
      }
      var p := ecs.physics[id];
      if p.isStatic {
        return;
      }
      if p.useGravity {
        ecs.physics := ecs.physics[id := p.(velocity := p.velocity.Add(gravity.Scale(dt)))];
      }
    }

    /** `applyGravity` for one entity, in the store. */
    method ApplyGravity(id: nat, dt: real)
      requires ecs.Valid()
      modifies ecs
      ensures ecs.Valid()
      ensures ecs.physics == if id in old(ecs.physics) then old(ecs.physics)[id := GravityApplied(old(ecs.physics)[id], gravity, dt)]
                             else old(ecs.physics)
      ensures ecs.transforms == old(ecs.transforms) && ecs.colliders == old(ecs.colliders)
      ensures ecs.entities == old(ecs.entities) && ecs.nextEntityId == old(ecs.nextEntityId)
    {
      if id !in ecs.physics {
        return;
      }
      var ps := ecs.physics;
      var p := ps[id];
      if p.useGravity && !p.isStatic {
        var v := p.velocity;
        ps := ps[id := p.(velocity := v.(y := v.y + gravity.y * dt))];
      }
      assert ps == ecs.physics[id := GravityApplied(ecs.physics[id], gravity, dt)];
      ecs.physics := ps;
    }

    /** The integration loop of `updateInternal`. */
    method IntegrateBodies(ids: seq<nat>, dt: real)
      requires ecs.Valid()
      modifies ecs
      ensures ecs.Valid()
      ensures ecs.physics == IntegrateAll(ecs.transforms, old(ecs.physics), ids, gravity, dt)
      ensures ecs.transforms == old(ecs.transforms) && ecs.colliders == old(ecs.colliders)
      ensures ecs.entities == old(ecs.entities) && ecs.nextEntityId == old(ecs.nextEntityId)
    {
      var i := 0;
      while i < |ids|
        invariant i <= |ids| && ecs.Valid()
        invariant ecs.physics == IntegrateAll(ecs.transforms, old(ecs.physics), ids[..i], gravity, dt)
        invariant ecs.transforms == old(ecs.transforms) && ecs.colliders == old(ecs.colliders)
        invariant ecs.entities == old(ecs.entities) && ecs.nextEntityId == old(ecs.nextEntityId)
      {
        assert ids[..i + 1][..i] == ids[..i];
        IntegratePhysics(ids[i], dt);
        i := i + 1;
      }
      assert ids[..i] == ids;
    }

    /** `broadPhaseDetection`. */
    method BroadPhaseDetection(es: seq<nat>) returns (pairs: seq<(nat, nat)>)
      ensures pairs == AllCandidates(es)
    {
      pairs := Pairs.EnumeratePairs(es, EcsCollision.AnyPair());
    }

    /** The narrow-phase loop of `detectCollisions`. */
    method NarrowPhaseAll(pairs: seq<(nat, nat)>) returns (found: seq<CollisionPair>)
      ensures found == Contacts(ecs.transforms, ecs.colliders, canLayersInteract, pairs)
    {
      found := [];
      var i := 0;
      while i < |pairs|
        invariant i <= |pairs|
        invariant found == Contacts(ecs.transforms, ecs.colliders, canLayersInteract, pairs[..i])
      {
        assert pairs[..i + 1][..i] == pairs[..i];
        var (a, b) := pairs[i];
        if CanEntitiesCollide(canLayersInteract, a, b) {
          var c := NarrowPhase(ecs.transforms, ecs.colliders, a, b);
          if c.Some? {
            found := found + [c.value];
          }
        }
        i := i + 1;
      }
      assert pairs[..i] == pairs;
    }

    /**
     * `detectCollisions`: nothing without the broad phase or with fewer than
     * two entities; otherwise the contact of every candidate pair the layer
     * filter allows is appended.
     */
    method DetectCollisions(es: seq<nat>)
      modifies this
      ensures !broadPhaseEnabled || |es| < 2 ==> activeCollisions == old(activeCollisions)
      ensures broadPhaseEnabled && |es| >= 2 ==>
                activeCollisions == old(activeCollisions)
                  + Contacts(ecs.transforms, ecs.colliders, canLayersInteract, AllCandidates(es))
      ensures gravity == old(gravity) && canLayersInteract == old(canLayersInteract)
      ensures broadPhaseEnabled == old(broadPhaseEnabled) && collisionResponseEnabled == old(collisionResponseEnabled)
      ensures lastCollisionCount == old(lastCollisionCount)
    {
      if !broadPhaseEnabled || |es| < 2 {
        return;
      }
      var pairs := BroadPhaseDetection(es);
      var found := NarrowPhaseAll(pairs);
      activeCollisions := activeCollisions + found;
    }

    /** `separateEntities` on the store. */
    method SeparateEntities(c: CollisionPair)
      requires ecs.Valid()
      modifies ecs
      ensures ecs.Valid()
      ensures ecs.transforms == Separate(old(ecs.transforms), c)
      ensures ecs.physics == old(ecs.physics) && ecs.colliders == old(ecs.colliders)
      ensures ecs.entities == old(ecs.entities) && ecs.nextEntityId == old(ecs.nextEntityId)
    {
      var a, b := c.entityA, c.entityB;
      var ts := ecs.transforms;
      if !(a in ts && b in ts) {
        return;
      }
      var d := HalfDepth(c);
      var ta := ts[a];
      ts := ts[a := ta.(position := ta.position.Sub(c.normal.Scale(d)))];
      var tb := ts[b];
      ts := ts[b := tb.(position := tb.position.Add(c.normal.Scale(d)))];
      assert ts == Separate(ecs.transforms, c);
      ecs.transforms := ts;
    }

    /** `applyCollisionImpulse` on the store. */
    method ApplyCollisionImpulse(c: CollisionPair)
      requires ecs.Valid()
      modifies ecs
      ensures ecs.Valid()
      ensures ecs.physics == Impulse(old(ecs.physics), c)
      ensures ecs.transforms == old(ecs.transforms) && ecs.colliders == old(ecs.colliders)
      ensures ecs.entities == old(ecs.entities) && ecs.nextEntityId == old(ecs.nextEntityId)
    {
      var a, b := c.entityA, c.entityB;
      var ps := ecs.physics;
      if !(a in ps && b in ps) {
        return;
      }
      var pa := ps[a];
      ps := ps[a := pa.(velocity := pa.velocity.Sub(c.normal.Scale(ImpulseStep)))];
      var pb := ps[b];
      ps := ps[b := pb.(velocity := pb.velocity.Add(c.normal.Scale(ImpulseStep)))];
      assert ps == Impulse(ecs.physics, c);
      ecs.physics := ps;
    }

    /** `resolveCollision`. */
    method ResolveCollision(c: CollisionPair)
      requires ecs.Valid()
      modifies ecs
      ensures ecs.Valid()
      ensures EcsCollision.Bodies(ecs.transforms, ecs.physics)
                == ResolveOne(EcsCollision.Bodies(old(ecs.transforms), old(ecs.physics)), c)
      ensures ecs.colliders == old(ecs.colliders)
      ensures ecs.entities == old(ecs.entities) && ecs.nextEntityId == old(ecs.nextEntityId)
    {
      SeparateEntities(c);
      ApplyCollisionImpulse(c);
    }

    /** `resolveCollisions`: nothing with collision response off, otherwise every active contact in order. */
    method ResolveCollisions()
      requires ecs.Valid()
      modifies ecs
      ensures ecs.Valid()
      ensures EcsCollision.Bodies(ecs.transforms, ecs.physics)
                == if collisionResponseEnabled
                   then ResolveAll(EcsCollision.Bodies(old(ecs.transforms), old(ecs.physics)), activeCollisions)
                   else EcsCollision.Bodies(old(ecs.transforms), old(ecs.physics))
      ensures ecs.colliders == old(ecs.colliders)
      ensures ecs.entities == old(ecs.entities) && ecs.nextEntityId == old(ecs.nextEntityId)
    {
      if !collisionResponseEnabled {
        return;
      }
      ghost var w := EcsCollision.Bodies(ecs.transforms, ecs.physics);
      var i := 0;
      while i < |activeCollisions|
        invariant i <= |activeCollisions| && ecs.Valid()
        invariant EcsCollision.Bodies(ecs.transforms, ecs.physics) == ResolveAll(w, activeCollisions[..i])
        invariant ecs.colliders == old(ecs.colliders)
        invariant ecs.entities == old(ecs.entities) && ecs.nextEntityId == old(ecs.nextEntityId)
      {
        assert activeCollisions[..i + 1][..i] == activeCollisions[..i];
        ResolveCollision(activeCollisions[i]);
        i := i + 1;
      }
      assert activeCollisions[..i] == activeCollisions;
    }

    /**
     * `updateInternal`: the bodies are the base system's entities with the
     * required components, returned in the store's order; the store and the
     * contacts become those of one `Step`.
     */
    method UpdateInternal(dt: real) returns (bodies: seq<nat>)
      requires Valid()
      modifies this, ecs
      ensures Valid()
      ensures NoDup(bodies) && forall e :: e in bodies <==> old(ecs.OwnsAll(e))
      ensures var s := Step(EcsCollision.Bodies(old(ecs.transforms), old(ecs.physics)), old(ecs.colliders), bodies,
                            gravity, dt, broadPhaseEnabled, collisionResponseEnabled, canLayersInteract);
              EcsCollision.Bodies(ecs.transforms, ecs.physics) == s.0 && activeCollisions == s.1
      ensures lastCollisionCount == |activeCollisions|
      ensures ecs.colliders == old(ecs.colliders)
      ensures ecs.entities == old(ecs.entities) && ecs.nextEntityId == old(ecs.nextEntityId)
      ensures gravity == old(gravity) && canLayersInteract == old(canLayersInteract)
      ensures broadPhaseEnabled == old(broadPhaseEnabled) && collisionResponseEnabled == old(collisionResponseEnabled)
    {
      bodies := base.GetEntitiesWithRequiredComponents();
      forall e ensures e in bodies <==> ecs.OwnsAll(e) {
        RequiredMeansOwnsAll(base, e);
      }
      ghost var w0 := EcsCollision.Bodies(ecs.transforms, ecs.physics);
      activeCollisions := [];
      IntegrateBodies(bodies, dt);
      ghost var w1 := EcsCollision.Bodies(ecs.transforms, ecs.physics);
      assert w1 == EcsCollision.Bodies(w0.transforms, IntegrateAll(w0.transforms, w0.physics, bodies, gravity, dt));
      if |bodies| > 0 {
        DetectCollisions(bodies);
      }
      ghost var contacts := activeCollisions;
      assert contacts == if !broadPhaseEnabled || |bodies| < 2 then []
                         else Contacts(w0.transforms, ecs.colliders, canLayersInteract, AllCandidates(bodies));
      ContactsMembers(w0.transforms, ecs.colliders, canLayersInteract, AllCandidates(bodies));
      if |activeCollisions| > 0 {
        ResolveCollisions();
      }
      ghost var w2 := EcsCollision.Bodies(ecs.transforms, ecs.physics);
      assert w2 == if contacts != [] && collisionResponseEnabled then ResolveAll(w1, contacts) else w1;
      EcsCollision.MoveBodies(ecs, bodies, dt);
      assert EcsCollision.Bodies(ecs.transforms, ecs.physics)
               == EcsCollision.Bodies(EcsCollision.MoveAll(w2.transforms, w2.physics, bodies, dt), w2.physics);
      lastCollisionCount := |activeCollisions|;
    }

    /**
     * The base system's `update`: `updateInternal` runs (reported as `ran`)
     * only when the system is initialized and enabled; otherwise nothing
     * changes.
     */
    method Update(dt: real) returns (ran: bool, bodies: seq<nat>)
      requires Valid()
      modifies this, ecs
      ensures Valid()
      ensures ran == (base.initialized && base.enabled)
      ensures !ran ==> bodies == [] && unchanged(this, ecs)
      ensures ran ==> NoDup(bodies) && forall e :: e in bodies <==> old(ecs.OwnsAll(e))
      ensures ran ==>
                var s := Step(EcsCollision.Bodies(old(ecs.transforms), old(ecs.physics)), old(ecs.colliders), bodies,
                              gravity, dt, broadPhaseEnabled, collisionResponseEnabled, canLayersInteract);
                EcsCollision.Bodies(ecs.transforms, ecs.physics) == s.0 && activeCollisions == s.1
                && lastCollisionCount == |activeCollisions|
      ensures ecs.colliders == old(ecs.colliders)
      ensures ecs.entities == old(ecs.entities) && ecs.nextEntityId == old(ecs.nextEntityId)
      ensures gravity == old(gravity) && canLayersInteract == old(canLayersInteract)
      ensures broadPhaseEnabled == old(broadPhaseEnabled) && collisionResponseEnabled == old(collisionResponseEnabled)
    {
      ran := base.Update(dt);
      bodies := [];
      if ran {
        bodies := UpdateInternal(dt);
      }
    }
  }
}
