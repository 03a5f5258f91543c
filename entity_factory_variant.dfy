// The second rigid-body entity factory of the ECS engine. It checks only the
// plain parameters of `createRigidBody`, always builds dynamic physics there,
// validates nothing on its other paths, ignores the results of the store's
// additions and keeps a 0 in a batch result for every refused spec.
module EntityFactoryVariant {
  import opened Common
  import opened Components
  import opened ComponentFactory
  import opened Ecs
  import EntityFactory

  /** Positive dimensions and a non-negative mass; the position is ignored. */
  predicate ValidateRigidBodyParameters(x: real, y: real, z: real,
                                        width: real, height: real, depth: real, mass: real)
  {
    width > 0.0 && height > 0.0 && depth > 0.0 && mass >= 0.0
  }

  /** The two factories accept exactly the same parameters. */
  lemma SameParameterCheck(x: real, y: real, z: real, width: real, height: real, depth: real, mass: real)
    ensures ValidateRigidBodyParameters(x, y, z, width, height, depth, mass)
            == EntityFactory.ValidateRigidBodyParameters(x, y, z, width, height, depth, mass)
  {
  }

  /**
   * `createRigidBody` always asks for dynamic physics: a zero mass gives a
   * non-static body under gravity whose inverse mass is 0.
   */
  lemma ZeroMassStaysDynamic()
    ensures !CreateDynamicPhysics(0.0).isStatic && CreateDynamicPhysics(0.0).useGravity
    ensures CreateDynamicPhysics(0.0).invMass == 0.0
  {
  }

  class RigidBodyEntityFactory {
    const ecs: EcsManager

    constructor (store: EcsManager)
      ensures ecs == store
    {
      ecs := store;
    }

    ghost predicate IsRigidBody(id: nat)
      reads ecs
    {
      id in ecs.entities && ecs.OwnsAll(id)
    }

    twostate predicate AddedBody(id: nat, t: Transform, p: Physics, c: BoxCollider)
      reads ecs
    {
      id == old(ecs.nextEntityId) && ecs.nextEntityId == id + 1
      && ecs.entities == old(ecs.entities) + [id]
      && ecs.transforms == old(ecs.transforms)[id := t]
      && ecs.physics == old(ecs.physics)[id := p]
      && ecs.colliders == old(ecs.colliders)[id := c]
    }

    /** Issues all three additions whatever they return, and reports success. */
    method AddAllComponents(id: nat, t: Transform, p: Physics, c: BoxCollider, layer: nat) returns (ok: bool)
      requires ecs.Valid()
      modifies ecs
      ensures ecs.Valid() && ok
      ensures ecs.entities == old(ecs.entities) && ecs.nextEntityId == old(ecs.nextEntityId)
      ensures var live := id in old(ecs.entities);
              ecs.transforms == (if live then old(ecs.transforms)[id := t] else old(ecs.transforms))
              && ecs.physics == (if live then old(ecs.physics)[id := p] else old(ecs.physics))
              && ecs.colliders == (if live then old(ecs.colliders)[id := c] else old(ecs.colliders))
    {
      var _ := ecs.AddTransform(id, t);
      var _ := ecs.AddPhysics(id, p);
      var _ := ecs.AddBoxCollider(id, c);
      ok := true;
    }

    /** No validation: any three components become a new rigid body. */
    method CreateRigidBodyWithComponents(t: Transform, p: Physics, c: BoxCollider, layer: nat) returns (id: nat)
      requires ecs.Valid()
      modifies ecs
      ensures ecs.Valid()
      ensures id != 0 && AddedBody(id, t, p, c) && IsRigidBody(id)
    {
      id := ecs.CreateEntity();
      var _ := AddAllComponents(id, t, p, c, layer);
      // addAllComponents always reports success, so the source's rollback
      // branch is never taken.
    }

    method CreateRigidBody(x: real, y: real, z: real, width: real, height: real, depth: real,
                           mass: real, layer: nat) returns (id: nat)
      requires ecs.Valid()
      modifies ecs
      ensures ecs.Valid()
      ensures id != 0 <==> ValidateRigidBodyParameters(x, y, z, width, height, depth, mass)
      ensures id == 0 ==> unchanged(ecs)
      ensures id != 0 ==> AddedBody(id, CreateTransformComponent(x, y, z, 1.0, 1.0, 1.0),
                                    CreateDynamicPhysics(mass), CreateBoxCollider(width, height, depth))
    {
      if !ValidateRigidBodyParameters(x, y, z, width, height, depth, mass) {
        return 0;
      }
      id := ecs.CreateEntity();
      var transform := CreateTransformComponent(x, y, z, 1.0, 1.0, 1.0);
      var physics := CreateDynamicPhysics(mass);
      var collider := CreateBoxCollider(width, height, depth);
      var _ := AddAllComponents(id, transform, physics, collider, layer);
    }

    /** No validation at all: even non-positive dimensions are stored. */
    method CreateStaticRigidBody(x: real, y: real, z: real, width: real, height: real, depth: real,
                                 layer: nat) returns (id: nat)
      requires ecs.Valid()
      modifies ecs
      ensures ecs.Valid()
      ensures id != 0 && AddedBody(id, CreateTransformComponent(x, y, z, 1.0, 1.0, 1.0),
                                   CreateStaticPhysics(), CreateBoxCollider(width, height, depth))
    {
      id := ecs.CreateEntity();
      var transform := CreateTransformComponent(x, y, z, 1.0, 1.0, 1.0);
      var physics := CreateStaticPhysics();
      var collider := CreateBoxCollider(width, height, depth);
      var _ := AddAllComponents(id, transform, physics, collider, layer);
    }

    method CreateDynamicRigidBody(x: real, y: real, z: real, width: real, height: real, depth: real,
                                  mass: real, layer: nat) returns (id: nat)
      requires ecs.Valid()
      modifies ecs
      ensures ecs.Valid()
      ensures id != 0 <==> ValidateRigidBodyParameters(x, y, z, width, height, depth, mass)
      ensures id == 0 ==> unchanged(ecs)
      ensures id != 0 ==> AddedBody(id, CreateTransformComponent(x, y, z, 1.0, 1.0, 1.0),
                                    CreateDynamicPhysics(mass), CreateBoxCollider(width, height, depth))
    {
      id := CreateRigidBody(x, y, z, width, height, depth, mass, layer);
    }

    /** The same as a static body. */
    method CreateKinematicRigidBody(x: real, y: real, z: real, width: real, height: real, depth: real,
                                    layer: nat) returns (id: nat)
      requires ecs.Valid()
      modifies ecs
      ensures ecs.Valid()
      ensures id != 0 && AddedBody(id, CreateTransformComponent(x, y, z, 1.0, 1.0, 1.0),
                                   CreateStaticPhysics(), CreateBoxCollider(width, height, depth))
    {
      id := CreateStaticRigidBody(x, y, z, width, height, depth, layer);
    }

    /**
     * Refused for a dead id; otherwise the three components go first and then
     * the entity, whatever components it had. The source's liveness test is
     * spelt `isValidEntity`, which the store does not declare; it is read as
     * the store's `isEntityValid`.
     */
    method DestroyRigidBody(id: nat) returns (ok: bool)
      requires ecs.Valid()
      modifies ecs
      ensures ecs.Valid()
      ensures ok == (id in old(ecs.entities))
      ensures !ok ==> unchanged(ecs)
      ensures ok ==> ecs.entities == RemoveFirst(old(ecs.entities), id)
      ensures ok ==> ecs.transforms == old(ecs.transforms) - {id} && ecs.physics == old(ecs.physics) - {id}
                     && ecs.colliders == old(ecs.colliders) - {id}
    {
      var live := ecs.IsEntityValid(id);
      if !live {
        return false;
      }
      ghost var t, p, c := ecs.transforms, ecs.physics, ecs.colliders;
      var _ := ecs.RemoveComponent(id, TransformKind);
      var _ := ecs.RemoveComponent(id, PhysicsKind);
      var _ := ecs.RemoveComponent(id, BoxColliderKind);
      assert ecs.transforms == t - {id} && ecs.physics == p - {id} && ecs.colliders == c - {id};
      ok := ecs.DestroyEntity(id);
      MapRemoveTwice(t, id);
      MapRemoveTwice(p, id);
      MapRemoveTwice(c, id);
    }

    /** Live (the source's `isValidEntity`, read as `isEntityValid`) and owning all three components. */
    method IsValidRigidBody(id: nat) returns (b: bool)
      requires ecs.Valid()
      ensures b == IsRigidBody(id)
    {
      b := ecs.IsEntityValid(id);
      b := b && ecs.HasTransform(id) && ecs.HasPhysics(id) && ecs.HasBoxCollider(id);
    }

    /** The complete rigid bodies: the ids owning all three components. */
    ghost function Bodies(): set<nat>
      reads ecs
    {
      ecs.transforms.Keys * ecs.physics.Keys * ecs.colliders.Keys
    }

    /**
     * A batch in progress over the first `|ids|` specs: the counter has moved
     * past the nonzero entries from `first`, they were appended to `base`, and
     * the tables are `t0`, `p0` and `c0` with those entries' components added.
     */
    ghost predicate BatchSoFar(first: nat, base: seq<nat>, t0: map<nat, Transform>, p0: map<nat, Physics>,
                               c0: map<nat, BoxCollider>, specs: seq<EntityFactory.BodySpec>, ids: seq<nat>)
      reads ecs
    {
      ecs.nextEntityId == first + |NonZero(ids)|
      && ecs.entities == base + NonZero(ids)
      && BatchTables(ecs.transforms, ecs.physics, ecs.colliders, t0, p0, c0, specs, ids)
    }

    /** `createRigidBody` on one batch spec, with what the batch loop relies on. */
    method CreateBatchEntry(s: EntityFactory.BodySpec, layer: nat) returns (id: nat)
      requires ecs.Valid()
      modifies ecs
      ensures ecs.Valid()
      ensures id != 0 <==> EntityFactory.AcceptsSpec(s)
      ensures id == 0 ==> unchanged(ecs)
      ensures id != 0 ==> AddedBody(id, SpecTransform(s), SpecPhysics(s), EntityFactory.SpecCollider(s))
                          && IsRigidBody(id)
      ensures id != 0 ==> id !in old(ecs.transforms) && id !in old(ecs.physics) && id !in old(ecs.colliders)
      ensures ecs.nextEntityId == old(ecs.nextEntityId) + (if id != 0 then 1 else 0)
      ensures ecs.entities == old(ecs.entities) + (if id != 0 then [id] else [])
      ensures old(Bodies()) <= Bodies()
    {
      ghost var next := ecs.nextEntityId;
      assert next !in ecs.transforms && next !in ecs.physics && next !in ecs.colliders by {
        forall k | 0 <= k < |ecs.entities|
          ensures ecs.entities[k] != next
        {
        }
      }
      id := CreateRigidBody(s.x, s.y, s.z, s.width, s.height, s.depth, s.mass, layer);
    }

    /** One turn of the batch loop: the entry for spec `|ids|`, its id or 0. */
    method BatchStep(ghost first: nat, ghost base: seq<nat>, ghost t0: map<nat, Transform>,
                     ghost p0: map<nat, Physics>, ghost c0: map<nat, BoxCollider>,
                     ghost specs: seq<EntityFactory.BodySpec>, ghost ids: seq<nat>,
                     s: EntityFactory.BodySpec, layer: nat) returns (id: nat)
      requires |ids| < |specs| && s == specs[|ids|]
      requires ecs.Valid() && BatchSoFar(first, base, t0, p0, c0, specs, ids) && BatchIds(first, specs, ids)
      modifies ecs
      ensures ecs.Valid() && BatchSoFar(first, base, t0, p0, c0, specs, ids + [id])
      ensures BatchIds(first, specs, ids + [id])
      ensures id == 0 <==> !EntityFactory.AcceptsSpec(s)
      ensures id != 0 ==> id == first + |NonZero(ids)|
    {
      ghost var ts, ps, cs := ecs.transforms, ecs.physics, ecs.colliders;
      id := CreateBatchEntry(s, layer);
      NonZeroSnoc(ids, id);
      BatchTablesSnoc(ts, ps, cs, t0, p0, c0, specs, ids, id);
      BatchIdsSnoc(first, specs, ids, id);
      if id != 0 {
        AppendAssoc(base, NonZero(ids), [id]);
      } else {
        assert NonZero(ids) + [] == NonZero(ids);
      }
    }

    /**
     * One entry per spec, in order: the new id, or 0 for a refused spec; the
     * new ids are consecutive from the old counter, each holds the components
     * built for its own spec, and every entry that existed before is kept.
     */
    method CreateRigidBodyBatch(specs: seq<EntityFactory.BodySpec>, layer: nat) returns (ids: seq<nat>)
      requires ecs.Valid()
      modifies ecs
      ensures ecs.Valid()
      ensures |ids| == |specs|
      ensures forall k :: 0 <= k < |specs| ==>
                (ids[k] == 0 <==> !EntityFactory.AcceptsSpec(specs[k]))
      ensures EntityFactory.Consecutive(NonZero(ids), old(ecs.nextEntityId))
      ensures ecs.entities == old(ecs.entities) + NonZero(ids)
      ensures Elems(NonZero(ids)) <= Bodies()
      ensures BatchTables(ecs.transforms, ecs.physics, ecs.colliders,
                          old(ecs.transforms), old(ecs.physics), old(ecs.colliders), specs, ids)
    {
      ghost var first, base := ecs.nextEntityId, ecs.entities;
      ghost var t0, p0, c0 := ecs.transforms, ecs.physics, ecs.colliders;
      ids := [];
      var i := 0;
      while i < |specs|
        invariant i <= |specs| && |ids| == i
        invariant ecs.Valid() && BatchSoFar(first, base, t0, p0, c0, specs, ids)
        invariant BatchIds(first, specs, ids)
      {
        var s := specs[i];
        var id := BatchStep(first, base, t0, p0, c0, specs, ids, s, layer);
        ids := ids + [id];
        i := i + 1;
      }
      BatchTablesOwn(ecs.transforms, ecs.physics, ecs.colliders, t0, p0, c0, specs, ids);
    }

    /** The store's own count of the entities owning all three components. */
    method GetRigidBodyCount() returns (n: nat)
      requires ecs.Valid()
      ensures n == |Filter(ecs.entities, ecs.transforms.Keys * ecs.physics.Keys * ecs.colliders.Keys)|
    {
      n := ecs.EntityCountWithAll();
    }

    method GetAllRigidBodies() returns (all: seq<nat>)
      requires ecs.Valid()
      ensures all == Filter(ecs.entities, ecs.transforms.Keys * ecs.physics.Keys * ecs.colliders.Keys)
      ensures forall e :: e in all <==> IsRigidBody(e)
    {
      all := ecs.EntitiesWithAll();
    }
  }

  /** The transform `createRigidBody` builds for a batch spec: unit scale. */
  function SpecTransform(s: EntityFactory.BodySpec): Transform
  {
    CreateTransformComponent(s.x, s.y, s.z, 1.0, 1.0, 1.0)
  }

  /** The physics `createRigidBody` builds for a batch spec: always dynamic. */
  function SpecPhysics(s: EntityFactory.BodySpec): Physics
  {
    CreateDynamicPhysics(s.mass)
  }

  /**
   * The tables of a batch over the first `|ids|` specs: `t0`, `p0` and `c0`
   * extended by the nonzero entries, each holding the components built for
   * the spec at its own position.
   */
  ghost predicate BatchTables(ts: map<nat, Transform>, ps: map<nat, Physics>, cs: map<nat, BoxCollider>,
                              t0: map<nat, Transform>, p0: map<nat, Physics>, c0: map<nat, BoxCollider>,
                              specs: seq<EntityFactory.BodySpec>, ids: seq<nat>)
  {
    |ids| <= |specs|
    && EntityFactory.KeepsOld(ts, ps, cs, t0, p0, c0, NonZero(ids))
    && forall k :: 0 <= k < |ids| && ids[k] != 0 ==>
         EntityFactory.HoldsParts(ts, ps, cs, ids[k], SpecTransform(specs[k]), SpecPhysics(specs[k]),
                                  EntityFactory.SpecCollider(specs[k]))
  }

  /**
   * The entry for the next spec keeps the batch tables: a fresh nonzero id
   * added with that spec's components, or a 0 with the tables untouched.
   */
  lemma BatchTablesSnoc(ts: map<nat, Transform>, ps: map<nat, Physics>, cs: map<nat, BoxCollider>,
                        t0: map<nat, Transform>, p0: map<nat, Physics>, c0: map<nat, BoxCollider>,
                        specs: seq<EntityFactory.BodySpec>, ids: seq<nat>, id: nat)
    requires BatchTables(ts, ps, cs, t0, p0, c0, specs, ids) && |ids| < |specs|
    requires id != 0 ==> id !in ts && id !in ps && id !in cs
    ensures id != 0 ==> BatchTables(ts[id := SpecTransform(specs[|ids|])], ps[id := SpecPhysics(specs[|ids|])],
                                    cs[id := EntityFactory.SpecCollider(specs[|ids|])], t0, p0, c0, specs, ids + [id])
    ensures id == 0 ==> BatchTables(ts, ps, cs, t0, p0, c0, specs, ids + [id])
  {
    NonZeroSnoc(ids, id);
    var s := specs[|ids|];
    var ids' := ids + [id];
    if id != 0 {
      var t, p, c := SpecTransform(s), SpecPhysics(s), EntityFactory.SpecCollider(s);
      EntityFactory.AddKeepsOld(ts, ps, cs, t0, p0, c0, NonZero(ids), id, t, p, c);
      forall k | 0 <= k < |ids'| && ids'[k] != 0
        ensures EntityFactory.HoldsParts(ts[id := t], ps[id := p], cs[id := c], ids'[k], SpecTransform(specs[k]),
                                         SpecPhysics(specs[k]), EntityFactory.SpecCollider(specs[k]))
      {
        if k < |ids| {
          assert ids'[k] == ids[k];
          assert ids[k] in ts;
        }
      }
    } else {
      assert NonZero(ids) + [] == NonZero(ids);
      forall k | 0 <= k < |ids'| && ids'[k] != 0
        ensures EntityFactory.HoldsParts(ts, ps, cs, ids'[k], SpecTransform(specs[k]),
                                         SpecPhysics(specs[k]), EntityFactory.SpecCollider(specs[k]))
      {
        assert ids'[k] == ids[k];
      }
    }
  }

  /** Every nonzero entry of a batch owns all three components. */
  lemma BatchTablesOwn(ts: map<nat, Transform>, ps: map<nat, Physics>, cs: map<nat, BoxCollider>,
                       t0: map<nat, Transform>, p0: map<nat, Physics>, c0: map<nat, BoxCollider>,
                       specs: seq<EntityFactory.BodySpec>, ids: seq<nat>)
    requires BatchTables(ts, ps, cs, t0, p0, c0, specs, ids)
    ensures Elems(NonZero(ids)) <= ts.Keys * ps.Keys * cs.Keys
  {
  }

  /**
   * The shape of a batch result so far: one entry per spec handled, 0 exactly
   * for the refused ones, and the others consecutive from `first`.
   */
  ghost predicate BatchIds(first: nat, specs: seq<EntityFactory.BodySpec>, ids: seq<nat>)
  {
    |ids| <= |specs|
    && EntityFactory.Consecutive(NonZero(ids), first)
    && forall k :: 0 <= k < |ids| ==> (ids[k] == 0 <==> !EntityFactory.AcceptsSpec(specs[k]))
  }

  /** Appending the entry for the next spec keeps the shape. */
  lemma BatchIdsSnoc(first: nat, specs: seq<EntityFactory.BodySpec>, ids: seq<nat>, id: nat)
    requires BatchIds(first, specs, ids) && |ids| < |specs|
    requires id == 0 <==> !EntityFactory.AcceptsSpec(specs[|ids|])
    requires id != 0 ==> id == first + |NonZero(ids)|
    ensures |ids + [id]| <= |specs|
    ensures EntityFactory.Consecutive(NonZero(ids + [id]), first)
    ensures forall k :: 0 <= k < |ids + [id]| ==> ((ids + [id])[k] == 0 <==> !EntityFactory.AcceptsSpec(specs[k]))
    ensures BatchIds(first, specs, ids + [id])
  {
    NonZeroSnoc(ids, id);
    var done := NonZero(ids);
    if id != 0 {
      assert NonZero(ids + [id]) == done + [id];
    } else {
      assert NonZero(ids + [id]) == done + [];
    }
    forall k | 0 <= k < |ids| + 1
      ensures ((ids + [id])[k] == 0 <==> !EntityFactory.AcceptsSpec(specs[k]))
    {
      if k < |ids| {
        assert (ids + [id])[k] == ids[k];
      }
    }
  }

  /** The nonzero entries of a batch result, in order. */
  function NonZero(ids: seq<nat>): (r: seq<nat>)
    ensures |r| <= |ids|
  {
    if ids == [] then [] else (if ids[0] != 0 then [ids[0]] else []) + NonZero(ids[1..])
  }

  lemma {:induction false} NonZeroSnoc(ids: seq<nat>, id: nat)
    ensures NonZero(ids + [id]) == NonZero(ids) + (if id != 0 then [id] else [])
  {
    var tail := if id != 0 then [id] else [];
    if ids == [] {
      assert [] + [id] == [id];
      assert NonZero([id]) == tail + NonZero([]);
    } else {
      var head := if ids[0] != 0 then [ids[0]] else [];
      assert (ids + [id])[0] == ids[0];
      assert (ids + [id])[1..] == ids[1..] + [id];
      NonZeroSnoc(ids[1..], id);
      calc {
        NonZero(ids + [id]);
        head + NonZero(ids[1..] + [id]);
        head + (NonZero(ids[1..]) + tail);
        (head + NonZero(ids[1..])) + tail;
        NonZero(ids) + tail;
      }
    }
  }
}
