// The rigid-body entity factory of the ECS engine: it validates parameters
// and components, then creates an entity in the shared store and attaches a
// transform, a physics and a box-collider component to it.
module EntityFactory {
  import opened Common
  import opened Components
  import opened ComponentFactory
  import opened Ecs

  /** One entry of a batch request: position, box dimensions and mass. */
  datatype BodySpec = BodySpec(x: real, y: real, z: real, width: real, height: real, depth: real, mass: real)

  /**
   * The parameter check: positive dimensions and a non-negative mass; the
   * finiteness tests hold for every real.
   */
  predicate ValidateRigidBodyParameters(x: real, y: real, z: real,
                                        width: real, height: real, depth: real, mass: real)
  {
    width > 0.0 && height > 0.0 && depth > 0.0 && mass >= 0.0
  }

  predicate AcceptsSpec(s: BodySpec)
  {
    ValidateRigidBodyParameters(s.x, s.y, s.z, s.width, s.height, s.depth, s.mass)
  }

  /** The specs a batch turns into bodies, in request order. */
  function AcceptedSpecs(specs: seq<BodySpec>): (r: seq<BodySpec>)
    ensures |r| <= |specs|
  {
    if specs == [] then []
    else (if AcceptsSpec(specs[0]) then [specs[0]] else []) + AcceptedSpecs(specs[1..])
  }

  /** The physics component `createRigidBody` picks for a mass. */
  function BodyPhysics(mass: real): (p: Physics)
  {
    if mass > 0.0 then CreateDynamicPhysics(mass) else CreateStaticPhysics()
  }

  /**
   * A positive mass gives a dynamic body with gravity and inverse mass 1/m;
   * a zero mass gives a static body without gravity and inverse mass 0.
   */
  lemma BodyPhysicsByMass(mass: real)
    requires mass >= 0.0
    ensures mass > 0.0 ==> !BodyPhysics(mass).isStatic && BodyPhysics(mass).useGravity
                           && BodyPhysics(mass).invMass * mass == 1.0
    ensures mass == 0.0 ==> BodyPhysics(mass).isStatic && !BodyPhysics(mass).useGravity
                            && BodyPhysics(mass).invMass == 0.0
    ensures ValidatePhysicsComponent(BodyPhysics(mass))
  {
    if mass > 0.0 {
      InverseMassIsReciprocal(mass);
    }
  }

  /** The transform `createRigidBody` builds for a batch spec. */
  function SpecTransform(s: BodySpec): Transform
  {
    CreateTransformAt(s.x, s.y, s.z)
  }

  /** The physics component `createRigidBody` builds for a batch spec. */
  function SpecPhysics(s: BodySpec): Physics
  {
    BodyPhysics(s.mass)
  }

  /** The collider `createRigidBody` builds for a batch spec. */
  function SpecCollider(s: BodySpec): BoxCollider
  {
    CreateBoxCollider(s.width, s.height, s.depth)
  }

  /** `id` owns exactly the components `t`, `p` and `c` in the three tables. */
  ghost predicate HoldsParts(ts: map<nat, Transform>, ps: map<nat, Physics>, cs: map<nat, BoxCollider>,
                             id: nat, t: Transform, p: Physics, c: BoxCollider)
  {
    id in ts && ts[id] == t && id in ps && ps[id] == p && id in cs && cs[id] == c
  }

  /**
   * The tables are `t0`, `p0` and `c0` with entries for `ids` added: every
   * old entry keeps its component and no other key appears.
   */
  ghost predicate KeepsOld(ts: map<nat, Transform>, ps: map<nat, Physics>, cs: map<nat, BoxCollider>,
                           t0: map<nat, Transform>, p0: map<nat, Physics>, c0: map<nat, BoxCollider>, ids: seq<nat>)
  {
    ts.Keys == t0.Keys + Elems(ids) && ps.Keys == p0.Keys + Elems(ids) && cs.Keys == c0.Keys + Elems(ids)
    && (forall id :: id in t0 ==> ts[id] == t0[id])
    && (forall id :: id in p0 ==> ps[id] == p0[id])
    && (forall id :: id in c0 ==> cs[id] == c0[id])
  }

  /** Adding a fresh entity to all three tables extends them by one more id and keeps the old entries. */
  lemma AddKeepsOld(ts: map<nat, Transform>, ps: map<nat, Physics>, cs: map<nat, BoxCollider>,
                    t0: map<nat, Transform>, p0: map<nat, Physics>, c0: map<nat, BoxCollider>, ids: seq<nat>,
                    id: nat, t: Transform, p: Physics, c: BoxCollider)
    requires KeepsOld(ts, ps, cs, t0, p0, c0, ids)
    requires id !in ts && id !in ps && id !in cs
    ensures KeepsOld(ts[id := t], ps[id := p], cs[id := c], t0, p0, c0, ids + [id])
    ensures HoldsParts(ts[id := t], ps[id := p], cs[id := c], id, t, p, c)
  {
    assert Elems(ids + [id]) == Elems(ids) + {id};
  }

  /**
   * The tables of a batch in progress: `t0`, `p0` and `c0` extended by
   * `ids`, the k-th of which holds the components built for `acc[k]`.
   */
  ghost predicate BatchTables(ts: map<nat, Transform>, ps: map<nat, Physics>, cs: map<nat, BoxCollider>,
                              t0: map<nat, Transform>, p0: map<nat, Physics>, c0: map<nat, BoxCollider>,
                              ids: seq<nat>, acc: seq<BodySpec>)
  {
    |ids| == |acc|
    && KeepsOld(ts, ps, cs, t0, p0, c0, ids)
    && forall k :: 0 <= k < |ids| ==>
         HoldsParts(ts, ps, cs, ids[k], SpecTransform(acc[k]), SpecPhysics(acc[k]), SpecCollider(acc[k]))
  }

  /** One more accepted spec stored under a fresh id extends the batch's tables by that id. */
  lemma BatchTablesSnoc(ts: map<nat, Transform>, ps: map<nat, Physics>, cs: map<nat, BoxCollider>,
                        t0: map<nat, Transform>, p0: map<nat, Physics>, c0: map<nat, BoxCollider>,
                        ids: seq<nat>, acc: seq<BodySpec>, id: nat, s: BodySpec)
    requires BatchTables(ts, ps, cs, t0, p0, c0, ids, acc)
    requires id !in ts && id !in ps && id !in cs
    ensures BatchTables(ts[id := SpecTransform(s)], ps[id := SpecPhysics(s)], cs[id := SpecCollider(s)],
                        t0, p0, c0, ids + [id], acc + [s])
  {
    var t, p, c := SpecTransform(s), SpecPhysics(s), SpecCollider(s);
    AddKeepsOld(ts, ps, cs, t0, p0, c0, ids, id, t, p, c);
    var ids', acc' := ids + [id], acc + [s];
    forall k | 0 <= k < |ids'|
      ensures HoldsParts(ts[id := t], ps[id := p], cs[id := c], ids'[k],
                         SpecTransform(acc'[k]), SpecPhysics(acc'[k]), SpecCollider(acc'[k]))
    {
      if k < |ids| {
        assert ids'[k] == ids[k] && acc'[k] == acc[k];
        assert ids[k] in ts;
      }
    }
  }

  /** Every id of a batch owns all three components. */
  lemma BatchTablesOwn(ts: map<nat, Transform>, ps: map<nat, Physics>, cs: map<nat, BoxCollider>,
                       t0: map<nat, Transform>, p0: map<nat, Physics>, c0: map<nat, BoxCollider>,
                       ids: seq<nat>, acc: seq<BodySpec>)
    requires BatchTables(ts, ps, cs, t0, p0, c0, ids, acc)
    ensures Elems(ids) <= ts.Keys * ps.Keys * cs.Keys
  {
  }

  /** Ids counting up one by one from `first`. */
  ghost predicate Consecutive(ids: seq<nat>, first: nat)
  {
    forall k :: 0 <= k < |ids| ==> ids[k] == first + k
  }

  /** Counting up one by one from `first` is being `Range(first, first + |ids|)`. */
  lemma ConsecutiveIsRange(ids: seq<nat>, first: nat)
    ensures Consecutive(ids, first) <==> ids == Range(first, first + |ids|)
  {
    RangeIndex(first, first + |ids|);
  }

  /** The accepted specs of one more prefix entry. */
  lemma AcceptedPrefixSnoc(specs: seq<BodySpec>, i: nat)
    requires i < |specs|
    ensures AcceptedSpecs(specs[..i + 1]) == AcceptedSpecs(specs[..i]) + (if AcceptsSpec(specs[i]) then [specs[i]] else [])
  {
    assert specs[..i + 1] == specs[..i] + [specs[i]];
    AcceptedSpecsSnoc(specs[..i], specs[i]);
  }

  /** The three component validators together. */
  predicate ComponentsValid(t: Transform, p: Physics, c: BoxCollider)
  {
    ValidateTransformComponent(t) && ValidatePhysicsComponent(p) && ValidateBoxColliderComponent(c)
  }

  class RigidBodyEntityFactory {
    const ecs: EcsManager

    constructor (store: EcsManager)
      ensures ecs == store
    {
      ecs := store;
    }

    /**
     * An entity owning all three components. The source also asks that it be
     * live, which the store's invariant already implies (see `IsValidRigidBody`).
     */
    ghost function Bodies(): set<nat>
      reads ecs
    {
      ecs.transforms.Keys * ecs.physics.Keys * ecs.colliders.Keys
    }

    ghost predicate IsRigidBody(id: nat)
      reads ecs
    {
      ecs.OwnsAll(id)
    }

    /**
     * The store grew by exactly one entity, the counter's old value, which now
     * owns the given components; nothing else changed.
     */
    twostate predicate AddedBody(id: nat, t: Transform, p: Physics, c: BoxCollider)
      reads ecs
    {
      id == old(ecs.nextEntityId) && ecs.nextEntityId == id + 1
      && ecs.entities == old(ecs.entities) + [id]
      && ecs.transforms == old(ecs.transforms)[id := t]
      && ecs.physics == old(ecs.physics)[id := p]
      && ecs.colliders == old(ecs.colliders)[id := c]
    }

    /** The liveness test of `isValidRigidBody` adds nothing under the invariant. */
    lemma RigidBodyIsLive(id: nat)
      requires ecs.Valid()
      ensures IsRigidBody(id) ==> id in ecs.entities
    {
      if IsRigidBody(id) {
        assert id in ecs.transforms;
      }
    }

    method IsValidRigidBody(id: nat) returns (b: bool)
      requires ecs.Valid()
      ensures b == IsRigidBody(id)
    {
      RigidBodyIsLive(id);
      b := ecs.IsEntityValid(id);
      b := b && ecs.HasTransform(id) && ecs.HasPhysics(id) && ecs.HasBoxCollider(id);
    }

    /** Attaches the three components in order, stopping at the first refusal. */
    method AddAllComponents(id: nat, t: Transform, p: Physics, c: BoxCollider, layer: nat) returns (ok: bool)
      requires ecs.Valid()
      modifies ecs
      ensures ecs.Valid()
      ensures ok == (id in old(ecs.entities))
      ensures ecs.entities == old(ecs.entities) && ecs.nextEntityId == old(ecs.nextEntityId)
      ensures ecs.transforms == if ok then old(ecs.transforms)[id := t] else old(ecs.transforms)
      ensures ecs.physics == if ok then old(ecs.physics)[id := p] else old(ecs.physics)
      ensures ecs.colliders == if ok then old(ecs.colliders)[id := c] else old(ecs.colliders)
    {
      ok := ecs.AddTransform(id, t);
      if ok {
        ok := ecs.AddPhysics(id, p);
      }
      if ok {
        ok := ecs.AddBoxCollider(id, c);
      }
    }

    /**
     * Validates the components first, so a refusal leaves the store untouched;
     * otherwise the result is a new, complete rigid body.
     */
    method CreateRigidBodyWithComponents(t: Transform, p: Physics, c: BoxCollider, layer: nat) returns (id: nat)
      requires ecs.Valid()
      modifies ecs
      ensures ecs.Valid()
      ensures id != 0 <==> ComponentsValid(t, p, c)
      ensures id == 0 ==> unchanged(ecs)
      ensures id != 0 ==> AddedBody(id, t, p, c) && IsRigidBody(id)
    {
      if !ComponentsValid(t, p, c) {
        return 0;
      }
      id := ecs.CreateEntity();
      // The store hands out ids from 1, so the source's test for a failed
      // creation never fires; the entity is live, so no addition is refused
      // and the source's rollback never runs.
      var ok := AddAllComponents(id, t, p, c, layer);
      assert ok;
    }

    method CreateRigidBody(x: real, y: real, z: real, width: real, height: real, depth: real,
                           mass: real, layer: nat) returns (id: nat)
      requires ecs.Valid()
      modifies ecs
      ensures ecs.Valid()
      ensures id != 0 <==> ValidateRigidBodyParameters(x, y, z, width, height, depth, mass)
      ensures id == 0 ==> unchanged(ecs)
      ensures id != 0 ==> AddedBody(id, CreateTransformAt(x, y, z), BodyPhysics(mass),
                                    CreateBoxCollider(width, height, depth))
    {
      if !ValidateRigidBodyParameters(x, y, z, width, height, depth, mass) {
        return 0;
      }
      var transform := CreateTransformAt(x, y, z);
      var physics := if mass > 0.0 then CreateDynamicPhysics(mass) else CreateStaticPhysics();
      var collider := CreateBoxCollider(width, height, depth);
      id := CreateRigidBodyWithComponents(transform, physics, collider, layer);
    }

    /** No parameter check: bad dimensions are caught by the collider validator. */
    method CreateStaticRigidBody(x: real, y: real, z: real, width: real, height: real, depth: real,
                                 layer: nat) returns (id: nat)
      requires ecs.Valid()
      modifies ecs
      ensures ecs.Valid()
      ensures id != 0 <==> width > 0.0 && height > 0.0 && depth > 0.0
      ensures id == 0 ==> unchanged(ecs)
      ensures id != 0 ==> AddedBody(id, CreateTransformAt(x, y, z), CreateStaticPhysics(),
                                    CreateBoxCollider(width, height, depth))
    {
      var transform := CreateTransformAt(x, y, z);
      var physics := CreateStaticPhysics();
      var collider := CreateBoxCollider(width, height, depth);
      id := CreateRigidBodyWithComponents(transform, physics, collider, layer);
    }

    /** A non-positive mass is replaced by 1.0 before anything else. */
    method CreateDynamicRigidBody(x: real, y: real, z: real, width: real, height: real, depth: real,
                                  mass: real, layer: nat) returns (id: nat)
      requires ecs.Valid()
      modifies ecs
      ensures ecs.Valid()
      ensures id != 0 <==> width > 0.0 && height > 0.0 && depth > 0.0
      ensures id == 0 ==> unchanged(ecs)
      ensures id != 0 ==> AddedBody(id, CreateTransformAt(x, y, z),
                                    CreateDynamicPhysics(if mass <= 0.0 then 1.0 else mass),
                                    CreateBoxCollider(width, height, depth))
    {
      var m := if mass <= 0.0 then 1.0 else mass;
      var transform := CreateTransformAt(x, y, z);
      var physics := CreateDynamicPhysics(m);
      var collider := CreateBoxCollider(width, height, depth);
      id := CreateRigidBodyWithComponents(transform, physics, collider, layer);
    }

    /** Mass 0, neither static nor under gravity, no restitution or friction. */
    method CreateKinematicRigidBody(x: real, y: real, z: real, width: real, height: real, depth: real,
                                    layer: nat) returns (id: nat)
      requires ecs.Valid()
      modifies ecs
      ensures ecs.Valid()
      ensures id != 0 <==> width > 0.0 && height > 0.0 && depth > 0.0
      ensures id == 0 ==> unchanged(ecs)
      ensures id != 0 ==> AddedBody(id, CreateTransformAt(x, y, z),
                                    CreatePhysicsComponent(0.0, false, false, 0.0, 0.0),
                                    CreateBoxCollider(width, height, depth))
    {
      var transform := CreateTransformAt(x, y, z);
      var physics := CreatePhysicsComponent(0.0, false, false, 0.0, 0.0);
      var collider := CreateBoxCollider(width, height, depth);
      id := CreateRigidBodyWithComponents(transform, physics, collider, layer);
    }

    method DestroyRigidBody(id: nat) returns (ok: bool)
      requires ecs.Valid()
      modifies ecs
      ensures ecs.Valid()
      ensures ok == old(IsRigidBody(id))
      ensures !ok ==> unchanged(ecs)
      ensures ok ==> ecs.entities == RemoveFirst(old(ecs.entities), id) && !IsRigidBody(id)
      ensures ok ==> ecs.transforms == old(ecs.transforms) - {id} && ecs.physics == old(ecs.physics) - {id}
                     && ecs.colliders == old(ecs.colliders) - {id}
    {
      var valid := IsValidRigidBody(id);
      if !valid {
        return false;
      }
      RigidBodyIsLive(id);
      ok := ecs.DestroyEntity(id);
    }

    /**
     * A batch in progress: the counter has moved past `ids` from `first`,
     * they were appended to `base`, the tables are `t0`, `p0`, `c0` extended
     * by them, and the k-th of them holds the components of `acc[k]`.
     */
    ghost predicate BatchSoFar(first: nat, base: seq<nat>, t0: map<nat, Transform>, p0: map<nat, Physics>,
                               c0: map<nat, BoxCollider>, ids: seq<nat>, acc: seq<BodySpec>)
      reads ecs
    {
      ecs.nextEntityId == first + |ids|
      && ecs.entities == base + ids
      && BatchTables(ecs.transforms, ecs.physics, ecs.colliders, t0, p0, c0, ids, acc)
    }

    /** `createRigidBody` on one batch spec, with what the batch loop relies on. */
    method CreateBatchEntry(s: BodySpec, layer: nat) returns (id: nat)
      requires ecs.Valid()
      modifies ecs
      ensures ecs.Valid()
      ensures id != 0 <==> AcceptsSpec(s)
      ensures id == 0 ==> unchanged(ecs)
      ensures id != 0 ==> AddedBody(id, SpecTransform(s), SpecPhysics(s), SpecCollider(s)) && IsRigidBody(id)
      ensures id != 0 ==> id !in old(ecs.transforms) && id !in old(ecs.physics) && id !in old(ecs.colliders)
      ensures ecs.nextEntityId == old(ecs.nextEntityId) + (if id != 0 then 1 else 0)
      ensures ecs.entities == old(ecs.entities) + (if id != 0 then [id] else [])
      ensures old(Bodies()) <= Bodies()
    {
      ghost var next := ecs.nextEntityId;
      assert next !in ecs.transforms && next !in ecs.physics && next !in ecs.colliders by {
        forall k | 0 <= k < |ecs.entities|
          ensures ecs.entities[k] != next
        {
        }
      }
      id := CreateRigidBody(s.x, s.y, s.z, s.width, s.height, s.depth, s.mass, layer);
    }

    /** One turn of the batch loop: one entry, keeping the new id. */
    method BatchStep(ghost first: nat, ghost base: seq<nat>, ghost t0: map<nat, Transform>,
                     ghost p0: map<nat, Physics>, ghost c0: map<nat, BoxCollider>,
                     ids: seq<nat>, ghost acc: seq<BodySpec>, s: BodySpec, layer: nat)
      returns (next: seq<nat>)
      requires ecs.Valid() && BatchSoFar(first, base, t0, p0, c0, ids, acc)
      modifies ecs
      ensures ecs.Valid()
      ensures BatchSoFar(first, base, t0, p0, c0, next, acc + (if AcceptsSpec(s) then [s] else []))
      ensures next == ids + (if AcceptsSpec(s) then [first + |ids|] else [])
    {
      ghost var ts, ps, cs := ecs.transforms, ecs.physics, ecs.colliders;
      var id := CreateBatchEntry(s, layer);
      next := ids;
      if id != 0 {
        AppendAssoc(base, ids, [id]);
        next := ids + [id];
        BatchTablesSnoc(ts, ps, cs, t0, p0, c0, ids, acc, id, s);
      } else {
        assert acc + [] == acc;
      }
    }

    /**
     * The new ids, in request order, one per accepted spec: the k-th holds the
     * components built for the k-th accepted spec, and every entry that
     * existed before is kept.
     */
    method CreateRigidBodyBatch(specs: seq<BodySpec>, layer: nat) returns (ids: seq<nat>)
      requires ecs.Valid()
      modifies ecs
      ensures ecs.Valid()
      ensures |ids| == |AcceptedSpecs(specs)| && |ids| <= |specs|
      ensures Consecutive(ids, old(ecs.nextEntityId))
      ensures ecs.entities == old(ecs.entities) + ids
      ensures Elems(ids) <= Bodies()
      ensures BatchTables(ecs.transforms, ecs.physics, ecs.colliders,
                          old(ecs.transforms), old(ecs.physics), old(ecs.colliders), ids, AcceptedSpecs(specs))
    {
      ghost var first, base := ecs.nextEntityId, ecs.entities;
      ghost var t0, p0, c0 := ecs.transforms, ecs.physics, ecs.colliders;
      ids := [];
      var i := 0;
      while i < |specs|
        invariant i <= |specs|
        invariant ecs.Valid() && BatchSoFar(first, base, t0, p0, c0, ids, AcceptedSpecs(specs[..i]))
        invariant Consecutive(ids, first)
      {
        var s := specs[i];
        ghost var acc := AcceptedSpecs(specs[..i]);
        AcceptedPrefixSnoc(specs, i);
        ids := BatchStep(first, base, t0, p0, c0, ids, acc, s, layer);
        i := i + 1;
      }
      assert specs[..i] == specs;
      BatchTablesOwn(ecs.transforms, ecs.physics, ecs.colliders, t0, p0, c0, ids, AcceptedSpecs(specs));
    }

    /** Counts the transform owners that are complete rigid bodies. */
    method GetRigidBodyCount() returns (n: nat)
      requires ecs.Valid()
      ensures n == |ecs.transforms.Keys * ecs.physics.Keys * ecs.colliders.Keys|
    {
      var ks := ecs.EntitiesWithTransform();
      ghost var keep := ecs.transforms.Keys * ecs.physics.Keys * ecs.colliders.Keys;
      n := 0;
      var i := 0;
      while i < |ks|
        invariant i <= |ks|
        invariant n + |Filter(ks[i..], keep)| == |Filter(ks, keep)|
      {
        assert ks[i..] == [ks[i]] + ks[i + 1..];
        var valid := IsValidRigidBody(ks[i]);
        if valid {
          n := n + 1;
        }
        i := i + 1;
      }
      assert ks[i..] == [];
      FilterCovering(ks, keep);
    }

    /** The complete rigid bodies, each once, in transform-table order. */
    method GetAllRigidBodies() returns (all: seq<nat>)
      requires ecs.Valid()
      ensures NoDup(all)
      ensures forall e :: e in all <==> IsRigidBody(e)
      ensures |all| == |ecs.transforms.Keys * ecs.physics.Keys * ecs.colliders.Keys|
    {
      var ks := ecs.EntitiesWithTransform();
      all := KeepRigidBodies(ks);
      FilterCovering(ks, ecs.transforms.Keys * ecs.physics.Keys * ecs.colliders.Keys);
    }

    /** The loop of `getAllRigidBodies`: the entries of `ks` that pass `isValidRigidBody`. */
    method KeepRigidBodies(ks: seq<nat>) returns (all: seq<nat>)
      requires ecs.Valid()
      ensures all == Filter(ks, ecs.transforms.Keys * ecs.physics.Keys * ecs.colliders.Keys)
    {
      ghost var keep := ecs.transforms.Keys * ecs.physics.Keys * ecs.colliders.Keys;
      all := [];
      var i := 0;
      while i < |ks|
        invariant i <= |ks|
        invariant all == Filter(ks[..i], keep)
      {
        FilterSnoc(ks[..i], ks[i], keep);
        assert ks[..i + 1] == ks[..i] + [ks[i]];
        var valid := IsValidRigidBody(ks[i]);
        if valid {
          all := all + [ks[i]];
        }
        i := i + 1;
      }
      assert ks[..i] == ks;
    }
  }

  lemma {:induction false} AcceptedSpecsSnoc(specs: seq<BodySpec>, s: BodySpec)
    ensures AcceptedSpecs(specs + [s]) == AcceptedSpecs(specs) + (if AcceptsSpec(s) then [s] else [])
  {
    var tail := if AcceptsSpec(s) then [s] else [];
    if specs == [] {
      assert [] + [s] == [s];
      assert AcceptedSpecs([s]) == tail + AcceptedSpecs([]);
    } else {
      var head := if AcceptsSpec(specs[0]) then [specs[0]] else [];
      assert (specs + [s])[0] == specs[0];
      assert (specs + [s])[1..] == specs[1..] + [s];
      AcceptedSpecsSnoc(specs[1..], s);
      calc {
        AcceptedSpecs(specs + [s]);
        head + AcceptedSpecs(specs[1..] + [s]);
        head + (AcceptedSpecs(specs[1..]) + tail);
        (head + AcceptedSpecs(specs[1..])) + tail;
        AcceptedSpecs(specs) + tail;
      }
    }
  }
}
