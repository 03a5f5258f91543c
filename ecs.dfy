// The CPU entity/component store: an id counter, the ordered list of live
// entities and one table per component type.
module Ecs {
  import opened Common
  import opened Components

  /** The component type named by a removal request (`std::type_index`). */
  datatype ComponentKind = TransformKind | PhysicsKind | BoxColliderKind | OtherKind

  class EcsManager {
    var nextEntityId: nat
    var entities: seq<nat>
    var transforms: map<nat, Transform>
    var physics: map<nat, Physics>
    var colliders: map<nat, BoxCollider>

    /**
     * Ids are handed out from 1 upward, so the live list is strictly
     * increasing and below the counter; every table key is a live entity.
     */
    ghost predicate Valid()
      reads this
    {
      1 <= nextEntityId
      && IdList(entities, nextEntityId)
      && KeysIn(transforms, entities)
      && KeysIn(physics, entities)
      && KeysIn(colliders, entities)
    }

    /** True when all three tables hold a component for `id`. */
    ghost predicate OwnsAll(id: nat)
      reads this
    {
      id in transforms && id in physics && id in colliders
    }

    constructor ()
      ensures Valid()
      ensures nextEntityId == 1 && entities == []
      ensures transforms == map[] && physics == map[] && colliders == map[]
    {
      nextEntityId := 1;
      entities := [];
      transforms := map[];
      physics := map[];
      colliders := map[];
    }

    /** `std::find` over the live list: the first index holding `id`, or |entities|. */
    method Find(id: nat) returns (k: nat)
      ensures k <= |entities|
      ensures k < |entities| ==> entities[k] == id
      ensures forall j :: 0 <= j < k ==> entities[j] != id
      ensures k == |entities| <==> id !in entities
    {
      k := 0;
      while k < |entities| && entities[k] != id
        invariant k <= |entities|
        invariant forall j :: 0 <= j < k ==> entities[j] != id
      {
        k := k + 1;
      }
    }

    method CreateEntity() returns (id: nat)
      requires Valid()
      modifies this
      ensures Valid()
      ensures id == old(nextEntityId) && nextEntityId == id + 1
      ensures id !in old(entities) && entities == old(entities) + [id]
      ensures transforms == old(transforms) && physics == old(physics) && colliders == old(colliders)
    {
      id := nextEntityId;
      IdListAppend(entities, nextEntityId);
      nextEntityId := nextEntityId + 1;
      entities := entities + [id];
    }

    method DestroyEntity(id: nat) returns (ok: bool)
      requires Valid()
      modifies this
      ensures Valid()
      ensures ok == (id in old(entities))
      ensures nextEntityId == old(nextEntityId)
      ensures entities == RemoveFirst(old(entities), id)
      ensures forall e :: e in entities <==> e in old(entities) && e != id
      ensures transforms == old(transforms) - {id}
      ensures physics == old(physics) - {id}
      ensures colliders == old(colliders) - {id}
    {
      var k := Find(id);
      ok := k < |entities|;
      var rest, t, p, c := entities, transforms, physics, colliders;
      if ok {
        EraseAt(entities, nextEntityId, k, id);
        rest := entities[..k] + entities[k + 1..];
        t, p, c := t - {id}, p - {id}, c - {id};
      } else {
        NotInRemoveFirst(entities, id);
        MapRemoveAbsent(t, entities, id);
        MapRemoveAbsent(p, entities, id);
        MapRemoveAbsent(c, entities, id);
      }
      KeysInErase(transforms, entities, id, rest);
      KeysInErase(physics, entities, id, rest);
      KeysInErase(colliders, entities, id, rest);
      entities, transforms, physics, colliders := rest, t, p, c;
    }

    method IsEntityValid(id: nat) returns (b: bool)
      ensures b == (id in entities)
    {
      var k := Find(id);
      b := k < |entities|;
    }

    method AddTransform(id: nat, c: Transform) returns (ok: bool)
      requires Valid()
      modifies this
      ensures Valid()
      ensures ok == (id in old(entities))
      ensures transforms == if ok then old(transforms)[id := c] else old(transforms)
      ensures nextEntityId == old(nextEntityId) && entities == old(entities)
      ensures physics == old(physics) && colliders == old(colliders)
    {
      ok := IsEntityValid(id);
      if ok {
        transforms := transforms[id := c];
      }
    }

    method AddPhysics(id: nat, c: Physics) returns (ok: bool)
      requires Valid()
      modifies this
      ensures Valid()
      ensures ok == (id in old(entities))
      ensures physics == if ok then old(physics)[id := c] else old(physics)
      ensures nextEntityId == old(nextEntityId) && entities == old(entities)
      ensures transforms == old(transforms) && colliders == old(colliders)
    {
      ok := IsEntityValid(id);
      if ok {
        physics := physics[id := c];
      }
    }

    method AddBoxCollider(id: nat, c: BoxCollider) returns (ok: bool)
      requires Valid()
      modifies this
      ensures Valid()
      ensures ok == (id in old(entities))
      ensures colliders == if ok then old(colliders)[id := c] else old(colliders)
      ensures nextEntityId == old(nextEntityId) && entities == old(entities)
      ensures transforms == old(transforms) && physics == old(physics)
    {
      ok := IsEntityValid(id);
      if ok {
        colliders := colliders[id := c];
      }
    }

    method RemoveComponent(id: nat, kind: ComponentKind) returns (ok: bool)
      requires Valid()
      modifies this
      ensures Valid()
      ensures ok == ((kind == TransformKind && id in old(transforms))
                  || (kind == PhysicsKind && id in old(physics))
                  || (kind == BoxColliderKind && id in old(colliders)))
      ensures transforms == if kind == TransformKind then old(transforms) - {id} else old(transforms)
      ensures physics == if kind == PhysicsKind then old(physics) - {id} else old(physics)
      ensures colliders == if kind == BoxColliderKind then old(colliders) - {id} else old(colliders)
      ensures nextEntityId == old(nextEntityId) && entities == old(entities)
    {
      match kind {
        case TransformKind =>
          ok := id in transforms;
          transforms := transforms - {id};
        case PhysicsKind =>
          ok := id in physics;
          physics := physics - {id};
        case BoxColliderKind =>
          ok := id in colliders;
          colliders := colliders - {id};
        case OtherKind =>
          ok := false;
      }
    }

    function GetTransform(id: nat): (r: Option<Transform>)
      reads this
      ensures r.Some? <==> HasTransform(id)
      ensures r.Some? ==> r.value == transforms[id]
    {
      if id in transforms then Some(transforms[id]) else None
    }

    function GetPhysics(id: nat): (r: Option<Physics>)
      reads this
      ensures r.Some? <==> HasPhysics(id)
      ensures r.Some? ==> r.value == physics[id]
    {
      if id in physics then Some(physics[id]) else None
    }

    function GetBoxCollider(id: nat): (r: Option<BoxCollider>)
      reads this
      ensures r.Some? <==> HasBoxCollider(id)
      ensures r.Some? ==> r.value == colliders[id]
    {
      if id in colliders then Some(colliders[id]) else None
    }

    predicate HasTransform(id: nat) reads this { id in transforms }
    predicate HasPhysics(id: nat) reads this { id in physics }
    predicate HasBoxCollider(id: nat) reads this { id in colliders }

    /** The keys of the transform table, each once, in hash-table order. */
    method EntitiesWithTransform() returns (ids: seq<nat>)
      ensures NoDup(ids) && |ids| == |transforms|
      ensures forall e :: e in ids <==> HasTransform(e)
    {
      ids := KeysInIterationOrder(transforms);
    }

    method EntitiesWithPhysics() returns (ids: seq<nat>)
      ensures NoDup(ids) && |ids| == |physics|
      ensures forall e :: e in ids <==> HasPhysics(e)
    {
      ids := KeysInIterationOrder(physics);
    }

    method EntitiesWithBoxCollider() returns (ids: seq<nat>)
      ensures NoDup(ids) && |ids| == |colliders|
      ensures forall e :: e in ids <==> HasBoxCollider(e)
    {
      ids := KeysInIterationOrder(colliders);
    }

    /** The live entities owning all three components, in live-list order. */
    method EntitiesWithAll() returns (ids: seq<nat>)
      requires Valid()
      ensures ids == Filter(entities, transforms.Keys * physics.Keys * colliders.Keys)
      ensures Increasing(ids) && NoDup(ids)
      ensures forall e :: e in ids <==> e in entities && OwnsAll(e)
    {
      ghost var keep := transforms.Keys * physics.Keys * colliders.Keys;
      ids := [];
      var i := 0;
      while i < |entities|
        invariant i <= |entities|
        invariant ids == Filter(entities[..i], keep)
      {
        var e := entities[i];
        FilterSnoc(entities[..i], e, keep);
        assert entities[..i + 1] == entities[..i] + [e];
        if e in transforms && e in physics && e in colliders {
          ids := ids + [e];
        }
        i := i + 1;
      }
      assert entities[..i] == entities;
      FilterIncreasing(entities, keep);
      IncreasingNoDup(ids);
      FilterMembers(entities, keep);
    }

    /** The length of what `EntitiesWithAll` returns, counted by its own loop. */
    method EntityCountWithAll() returns (n: nat)
      requires Valid()
      ensures n == |Filter(entities, transforms.Keys * physics.Keys * colliders.Keys)|
    {
      ghost var keep := transforms.Keys * physics.Keys * colliders.Keys;
      n := 0;
      var i := 0;
      while i < |entities|
        invariant i <= |entities|
        invariant n + |Filter(entities[i..], keep)| == |Filter(entities, keep)|
      {
        assert entities[i..] == [entities[i]] + entities[i + 1..];
        var e := entities[i];
        if e in transforms && e in physics && e in colliders {
          n := n + 1;
        }
        i := i + 1;
      }
      assert entities[i..] == [];
    }
  }
}
