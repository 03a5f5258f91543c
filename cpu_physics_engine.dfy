// The ECS-backed CPU physics engine front end: it owns a component store, a
// rigid-body entity factory and a collision system, keeps its own list-based
// layer registry, and mirrors every body it created in an all-in-one legacy
// record that is refreshed from the store on demand.
module CpuEngine {
  import opened Common
  import opened Components
  import opened ComponentFactory
  import opened LayerLists
  import Ecs
  import EntityFactory
  import EcsCollision
  import EcsContacts

  /**
   * The layer callback the engine hands to its collision system: the
   * registry's own interaction test, evaluated against the registry as it is
   * when the collision system asks.
   */
  function LayerCallback(layers: map<nat, PhysicsLayer>): (nat, nat) -> bool
  {
    (l1: nat, l2: nat) => LayersInteract(layers, l1, l2)
  }

  /**
   * The collision system asks the callback about layers (0, 0) only, and the
   * registry never holds layer 0: with the engine's callback no pair of
   * entities may ever collide.
   */
  lemma EngineCallbackRefusesAll(layers: map<nat, PhysicsLayer>, nextLayerId: nat, a: nat, b: nat)
    requires WellFormed(layers, nextLayerId)
    ensures !EcsContacts.CanEntitiesCollide(Some(LayerCallback(layers)), a, b)
  {
    LayerZeroInteractsWithNothing(layers, nextLayerId, 0);
  }

  /** The record `createLegacyRigidBodyWrapper` builds before copying any component in. */
  function BlankWrapper(id: nat): RigidBodyRecord
  {
    RigidBodyRecord(id, DefaultTransform, DefaultPhysics, DefaultBoxCollider, 0, true)
  }

  /**
   * `updateLegacyRigidBodyData` on one wrapper: when all three components
   * exist they are copied in, otherwise the wrapper is left as it is.
   */
  function Refreshed(w: RigidBodyRecord, ts: map<nat, Transform>, ps: map<nat, Physics>,
                     cs: map<nat, BoxCollider>): (r: RigidBodyRecord)
  {
    var id := w.entityId;
    if id in ts && id in ps && id in cs then w.(transform := ts[id], physics := ps[id], collider := cs[id]) else w
  }

  /**
   * A refreshed wrapper keeps its id, layer and collider flag; it mirrors
   * the store whenever the store holds the whole body; and refreshing twice
   * is refreshing once.
   */
  lemma RefreshedMeaning(w: RigidBodyRecord, ts: map<nat, Transform>, ps: map<nat, Physics>,
                         cs: map<nat, BoxCollider>)
    ensures var r := Refreshed(w, ts, ps, cs);
            r.entityId == w.entityId && r.layer == w.layer && r.hasCollider == w.hasCollider
    ensures var id := w.entityId;
            id in ts && id in ps && id in cs ==>
              var r := Refreshed(w, ts, ps, cs);
              r.transform == ts[id] && r.physics == ps[id] && r.collider == cs[id]
    ensures var id := w.entityId;
            !(id in ts && id in ps && id in cs) ==> Refreshed(w, ts, ps, cs) == w
    ensures Refreshed(Refreshed(w, ts, ps, cs), ts, ps, cs) == Refreshed(w, ts, ps, cs)
  {
  }

  /** The wrapper `createLegacyRigidBodyWrapper` stores for an id. */
  function NewWrapper(id: nat, ts: map<nat, Transform>, ps: map<nat, Physics>, cs: map<nat, BoxCollider>)
    : RigidBodyRecord
  {
    Refreshed(BlankWrapper(id), ts, ps, cs)
  }

  /**
   * A new wrapper carries its id, a collider flag and layer 0, whatever
   * layer the body was created on; it mirrors the store when the store holds
   * the whole body and is the default record otherwise.
   */
  lemma NewWrapperMeaning(id: nat, ts: map<nat, Transform>, ps: map<nat, Physics>, cs: map<nat, BoxCollider>)
    ensures var w := NewWrapper(id, ts, ps, cs);
            w.entityId == id && w.layer == 0 && w.hasCollider
    ensures var w := NewWrapper(id, ts, ps, cs);
            id in ts && id in ps && id in cs ==> w.transform == ts[id] && w.physics == ps[id] && w.collider == cs[id]
    ensures !(id in ts && id in ps && id in cs) ==>
              NewWrapper(id, ts, ps, cs) == RigidBodyRecord(id, DefaultTransform, DefaultPhysics, DefaultBoxCollider, 0, true)
  {
  }

  /** Every wrapper refreshed from the store. */
  function RefreshAll(legacy: map<nat, RigidBodyRecord>, ts: map<nat, Transform>, ps: map<nat, Physics>,
                      cs: map<nat, BoxCollider>): (r: map<nat, RigidBodyRecord>)
    ensures r.Keys == legacy.Keys
  {
    map id | id in legacy :: Refreshed(legacy[id], ts, ps, cs)
  }

  /** The wrappers named in `done` refreshed and the others untouched. */
  function RefreshedSome(legacy: map<nat, RigidBodyRecord>, done: seq<nat>, ts: map<nat, Transform>,
                         ps: map<nat, Physics>, cs: map<nat, BoxCollider>): (r: map<nat, RigidBodyRecord>)
    ensures r.Keys == legacy.Keys
  {
    map id | id in legacy :: if id in done then Refreshed(legacy[id], ts, ps, cs) else legacy[id]
  }

  lemma RefreshedSomeStep(legacy: map<nat, RigidBodyRecord>, ids: seq<nat>, i: nat, ts: map<nat, Transform>,
                          ps: map<nat, Physics>, cs: map<nat, BoxCollider>)
    requires NoDup(ids) && i < |ids| && ids[i] in legacy
    ensures var r := RefreshedSome(legacy, ids[..i], ts, ps, cs);
            RefreshedSome(legacy, ids[..i + 1], ts, ps, cs) == r[ids[i] := Refreshed(r[ids[i]], ts, ps, cs)]
  {
    assert ids[..i + 1] == ids[..i] + [ids[i]];
    assert ids[i] !in ids[..i];
  }

  lemma RefreshedSomeAll(legacy: map<nat, RigidBodyRecord>, ids: seq<nat>, ts: map<nat, Transform>,
                         ps: map<nat, Physics>, cs: map<nat, BoxCollider>)
    requires forall id :: id in legacy ==> id in ids
    ensures RefreshedSome(legacy, ids, ts, ps, cs) == RefreshAll(legacy, ts, ps, cs)
  {
  }

  /** Every wrapper is keyed by its own id, has a collider flag and sits on layer 0. */
  ghost predicate WrappersNamed(legacy: map<nat, RigidBodyRecord>)
  {
    forall id :: id in legacy ==> legacy[id].entityId == id && legacy[id].layer == 0 && legacy[id].hasCollider
  }

  /** Refreshing keeps every wrapper's id, layer and collider flag. */
  lemma RefreshAllKeepsNames(legacy: map<nat, RigidBodyRecord>, ts: map<nat, Transform>, ps: map<nat, Physics>,
                             cs: map<nat, BoxCollider>)
    requires WrappersNamed(legacy)
    ensures WrappersNamed(RefreshAll(legacy, ts, ps, cs))
  {
  }

  /**
   * `CPUPhysicsEngine`. The three shared pointers are nullable references,
   * set together by `initialize` and dropped together by `cleanup`. The
   * entity factory's header is not part of this model; the factory is taken
   * to be `EntityFactory.RigidBodyEntityFactory`, whose constructor and
   * `createRigidBody` match the engine's calls.
   */
  class CpuPhysicsEngine {
    var ecsManager: Ecs.EcsManager?
    var entityFactory: EntityFactory.RigidBodyEntityFactory?
    var collisionSystem: EcsCollision.CpuPhysicsCollisionSystem?
    var legacyRigidBodies: map<nat, RigidBodyRecord>
    var maxRigidBodies: nat
    var layers: map<nat, PhysicsLayer>
    var nextLayerId: nat
    var gravity: Vec3

    /** The three parts exist together and share one store; the collision system asks the registry. */
    ghost predicate Initialized()
      reads this, collisionSystem
    {
      ecsManager != null && entityFactory != null && collisionSystem != null
      && entityFactory.ecs == ecsManager && collisionSystem.ecs == ecsManager
      && collisionSystem.canLayersInteract == Some(LayerCallback(layers))
    }

    ghost predicate Valid()
      reads this, ecsManager, collisionSystem
    {
      1 <= nextLayerId && WellFormed(layers, nextLayerId) && Symmetric(layers)
      && WrappersNamed(legacyRigidBodies)
      && (ecsManager == null <==> entityFactory == null)
      && (ecsManager == null <==> collisionSystem == null)
      && (ecsManager != null ==> Initialized() && ecsManager.Valid())
    }

    /** The defaults of the class: nothing created yet, capacity 512, no layers, layer counter at 1. */
    constructor ()
      ensures Valid() && ecsManager == null && legacyRigidBodies == map[]
      ensures maxRigidBodies == 512 && layers == map[] && nextLayerId == 1 && gravity == Vec3(0.0, -9.81, 0.0)
    {
      ecsManager := null;
      entityFactory := null;
      collisionSystem := null;
      legacyRigidBodies := map[];
      maxRigidBodies := 512;
      layers := map[];
      nextLayerId := 1;
      gravity := Vec3(0.0, -9.81, 0.0);
    }

    /**
     * `initialize`: a fresh store, factory and collision system wired to the
     * layer registry, then the layer "Default" with an empty list.
     */
    method Initialize(maxBodies: nat) returns (ok: bool)
      requires Valid()
      modifies this
      ensures Valid() && ok && ecsManager != null
      ensures fresh(ecsManager) && fresh(entityFactory) && fresh(collisionSystem)
      ensures ecsManager.entities == [] && ecsManager.nextEntityId == 1
      ensures collisionSystem.gravity == Vec3(0.0, -9.81, 0.0)
      ensures maxRigidBodies == maxBodies && nextLayerId == old(nextLayerId) + 1
      ensures layers == old(layers)[old(nextLayerId) := PhysicsLayer(old(nextLayerId), "Default", [])]
      ensures legacyRigidBodies == old(legacyRigidBodies) && gravity == old(gravity)
    {
      maxRigidBodies := maxBodies;
      CreateParts();
      var _ := CreateLayer("Default");
      ok := true;
    }

    /** The three parts of `initialize`, sharing one fresh store, the collision system asking the registry. */
    method CreateParts()
      requires Valid()
      modifies this
      ensures Valid() && ecsManager != null
      ensures fresh(ecsManager) && fresh(entityFactory) && fresh(collisionSystem)
      ensures ecsManager.entities == [] && ecsManager.nextEntityId == 1
      ensures collisionSystem.gravity == Vec3(0.0, -9.81, 0.0)
      ensures maxRigidBodies == old(maxRigidBodies) && layers == old(layers) && nextLayerId == old(nextLayerId)
      ensures legacyRigidBodies == old(legacyRigidBodies) && gravity == old(gravity)
    {
      var store := new Ecs.EcsManager();
      var factory := new EntityFactory.RigidBodyEntityFactory(store);
      var system := new EcsCollision.CpuPhysicsCollisionSystem(store);
      system.SetLayerInteractionCallback(Some(LayerCallback(layers)));
      ecsManager, entityFactory, collisionSystem := store, factory, system;
    }

    /**
     * `cleanup`: the wrappers, the three parts and the layers are dropped;
     * the layer counter is NOT reset, so a later "Default" layer gets a
     * higher id.
     */
    method Cleanup()
      requires Valid()
      modifies this
      ensures Valid()
      ensures legacyRigidBodies == map[] && ecsManager == null && entityFactory == null && collisionSystem == null
      ensures layers == map[] && nextLayerId == old(nextLayerId)
      ensures maxRigidBodies == old(maxRigidBodies) && gravity == old(gravity)
    {
      legacyRigidBodies := map[];
      collisionSystem := null;
      entityFactory := null;
      ecsManager := null;
      layers := map[];
    }

    /** Re-installs the registry's callback after the registry changed, as the live lambda of the source sees it. */
    method RefreshCallback()
      requires ecsManager != null ==> collisionSystem != null
      modifies collisionSystem
      ensures collisionSystem != null ==> collisionSystem.canLayersInteract == Some(LayerCallback(layers))
      ensures collisionSystem != null ==>
                collisionSystem.gravity == old(collisionSystem.gravity)
                && collisionSystem.broadPhaseEnabled == old(collisionSystem.broadPhaseEnabled)
                && collisionSystem.collisionResponseEnabled == old(collisionSystem.collisionResponseEnabled)
                && collisionSystem.activeCollisions == old(collisionSystem.activeCollisions)
                && collisionSystem.lastCollisionCount == old(collisionSystem.lastCollisionCount)
    {
      if collisionSystem != null {
        collisionSystem.SetLayerInteractionCallback(Some(LayerCallback(layers)));
      }
    }

    /**
     * `createRigidBody`: 0 before `initialize`; otherwise the factory's id,
     * which is 0 exactly for rejected parameters, and for a created body a
     * wrapper on layer 0 mirrors its components. The capacity is never
     * consulted.
     */
    method CreateRigidBody(x: real, y: real, z: real, width: real, height: real, depth: real, mass: real,
                           layer: nat) returns (id: nat)
      requires Valid()
      modifies this, ecsManager
      ensures Valid()
      ensures old(ecsManager) == null ==> id == 0 && legacyRigidBodies == old(legacyRigidBodies)
      ensures ecsManager == old(ecsManager) && entityFactory == old(entityFactory)
      ensures collisionSystem == old(collisionSystem)
      ensures ecsManager != null ==>
                (id != 0 <==> EntityFactory.ValidateRigidBodyParameters(x, y, z, width, height, depth, mass))
      ensures ecsManager != null && id == 0 ==> unchanged(ecsManager) && legacyRigidBodies == old(legacyRigidBodies)
      ensures ecsManager != null && id != 0 ==>
                ecsManager.entities == old(ecsManager.entities) + [id] && id == old(ecsManager.nextEntityId)
                && ecsManager.transforms == old(ecsManager.transforms)[id := CreateTransformAt(x, y, z)]
                && ecsManager.physics == old(ecsManager.physics)[id := EntityFactory.BodyPhysics(mass)]
                && ecsManager.colliders == old(ecsManager.colliders)[id := CreateBoxCollider(width, height, depth)]
                && legacyRigidBodies == old(legacyRigidBodies)[id := NewWrapper(id, ecsManager.transforms,
                                                                                 ecsManager.physics, ecsManager.colliders)]
      ensures layers == old(layers) && nextLayerId == old(nextLayerId)
      ensures maxRigidBodies == old(maxRigidBodies) && gravity == old(gravity)
    {
      if entityFactory == null {
        return 0;
      }
      id := entityFactory.CreateRigidBody(x, y, z, width, height, depth, mass, layer);
      if id != 0 {
        CreateLegacyWrapper(id);
      }
    }

    /** `createLegacyRigidBodyWrapper`: a wrapper for `id` built from the store, replacing any earlier one. */
    method CreateLegacyWrapper(id: nat)
      requires Valid()
      modifies this
      ensures Valid()
      ensures ecsManager != null ==>
                legacyRigidBodies == old(legacyRigidBodies)[id := NewWrapper(id, ecsManager.transforms,
                                                                             ecsManager.physics, ecsManager.colliders)]
      ensures ecsManager == null ==> legacyRigidBodies == old(legacyRigidBodies)
      ensures ecsManager == old(ecsManager) && entityFactory == old(entityFactory)
      ensures collisionSystem == old(collisionSystem)
      ensures layers == old(layers) && nextLayerId == old(nextLayerId)
      ensures maxRigidBodies == old(maxRigidBodies) && gravity == old(gravity)
    {
      if ecsManager == null {
        return;
      }
      NewWrapperMeaning(id, ecsManager.transforms, ecsManager.physics, ecsManager.colliders);
      legacyRigidBodies := legacyRigidBodies[id := NewWrapper(id, ecsManager.transforms, ecsManager.physics,
                                                              ecsManager.colliders)];
    }

    /**
     * `removeRigidBody`: false before `initialize`; otherwise the wrapper is
     * dropped and the answer is the factory's, true exactly for a complete
     * rigid body, which then leaves the store.
     */
    method RemoveRigidBody(id: nat) returns (removed: bool)
      requires Valid()
      modifies this, ecsManager
      ensures Valid()
      ensures ecsManager == old(ecsManager) && entityFactory == old(entityFactory)
      ensures collisionSystem == old(collisionSystem)
      ensures old(ecsManager) == null ==> !removed && legacyRigidBodies == old(legacyRigidBodies)
      ensures ecsManager != null ==>
                legacyRigidBodies == old(legacyRigidBodies) - {id}
                && removed == old(ecsManager.OwnsAll(id))
                && (removed ==> !ecsManager.OwnsAll(id) && ecsManager.entities == RemoveFirst(old(ecsManager.entities), id))
                && (!removed ==> unchanged(ecsManager))
      ensures layers == old(layers) && nextLayerId == old(nextLayerId)
      ensures maxRigidBodies == old(maxRigidBodies) && gravity == old(gravity)
    {
      if entityFactory == null {
        return false;
      }
      legacyRigidBodies := legacyRigidBodies - {id};
      removed := entityFactory.DestroyRigidBody(id);
    }

    /** `updateLegacyRigidBodyData`: the wrapper for `id`, if any, refreshed from the store. */
    method UpdateLegacyData(id: nat)
      requires Valid()
      modifies this
      ensures Valid()
      ensures ecsManager != null && id in old(legacyRigidBodies) ==>
                legacyRigidBodies == old(legacyRigidBodies)[id := Refreshed(old(legacyRigidBodies)[id],
                                       ecsManager.transforms, ecsManager.physics, ecsManager.colliders)]
      ensures !(ecsManager != null && id in old(legacyRigidBodies)) ==> legacyRigidBodies == old(legacyRigidBodies)
      ensures ecsManager == old(ecsManager) && entityFactory == old(entityFactory)
      ensures collisionSystem == old(collisionSystem)
      ensures layers == old(layers) && nextLayerId == old(nextLayerId)
      ensures maxRigidBodies == old(maxRigidBodies) && gravity == old(gravity)
    {
      if id !in legacyRigidBodies || ecsManager == null {
        return;
      }
      RefreshedMeaning(legacyRigidBodies[id], ecsManager.transforms, ecsManager.physics, ecsManager.colliders);
      legacyRigidBodies := legacyRigidBodies[id := Refreshed(legacyRigidBodies[id], ecsManager.transforms,
                                                             ecsManager.physics, ecsManager.colliders)];
    }

    /** `getRigidBody`: nothing without a wrapper; otherwise the wrapper, refreshed first. */
    method GetRigidBody(id: nat) returns (r: Option<RigidBodyRecord>)
      requires Valid()
      modifies this
      ensures Valid()
      ensures r.Some? <==> id in old(legacyRigidBodies)
      ensures r.Some? ==> id in legacyRigidBodies && r.value == legacyRigidBodies[id]
      ensures ecsManager != null && id in old(legacyRigidBodies) ==>
                legacyRigidBodies == old(legacyRigidBodies)[id := Refreshed(old(legacyRigidBodies)[id],
                                       ecsManager.transforms, ecsManager.physics, ecsManager.colliders)]
      ensures !(ecsManager != null && id in old(legacyRigidBodies)) ==> legacyRigidBodies == old(legacyRigidBodies)
      ensures ecsManager == old(ecsManager) && entityFactory == old(entityFactory)
      ensures collisionSystem == old(collisionSystem)
      ensures layers == old(layers) && nextLayerId == old(nextLayerId)
      ensures maxRigidBodies == old(maxRigidBodies) && gravity == old(gravity)
    {
      if id !in legacyRigidBodies {
        return None;
      }
      UpdateLegacyData(id);
      r := Some(legacyRigidBodies[id]);
    }

    /** The wrapper loop of `updatePhysics`: every wrapper refreshed, in the table's order. */
    method RefreshWrappers()
      requires Valid() && ecsManager != null
      modifies this
      ensures Valid()
      ensures ecsManager == old(ecsManager) && entityFactory == old(entityFactory)
      ensures collisionSystem == old(collisionSystem)
      ensures legacyRigidBodies == RefreshAll(old(legacyRigidBodies), ecsManager.transforms, ecsManager.physics,
                                              ecsManager.colliders)
      ensures layers == old(layers) && nextLayerId == old(nextLayerId)
      ensures maxRigidBodies == old(maxRigidBodies) && gravity == old(gravity)
    {
      ghost var ts, ps, cs := ecsManager.transforms, ecsManager.physics, ecsManager.colliders;
      ghost var start := legacyRigidBodies;
      var order := KeysInIterationOrder(legacyRigidBodies);
      var i := 0;
      while i < |order|
        invariant i <= |order| && Valid()
        invariant ecsManager == old(ecsManager) && entityFactory == old(entityFactory)
        invariant collisionSystem == old(collisionSystem)
        invariant legacyRigidBodies == RefreshedSome(start, order[..i], ts, ps, cs)
        invariant layers == old(layers) && nextLayerId == old(nextLayerId)
        invariant maxRigidBodies == old(maxRigidBodies) && gravity == old(gravity)
      {
        RefreshedSomeStep(start, order, i, ts, ps, cs);
        UpdateLegacyData(order[i]);
        i := i + 1;
      }
      assert order[..|order|] == order;
      RefreshedSomeAll(start, order, ts, ps, cs);
    }

    /**
     * `updatePhysics`: nothing before `initialize`; otherwise one update of
     * the collision system, which finds no contact because the registry
     * never admits layer 0, so every body owning all three components is
     * integrated under the collision system's gravity and then moved by its
     * new velocity; then every wrapper is refreshed.
     */
    method UpdatePhysics(dt: real)
      requires Valid()
      modifies this, ecsManager, collisionSystem
      ensures Valid()
      ensures old(ecsManager) == null ==> unchanged(this)
      ensures ecsManager == old(ecsManager) && entityFactory == old(entityFactory)
      ensures collisionSystem == old(collisionSystem)
      ensures ecsManager != null ==>
                collisionSystem.activeCollisions == [] && collisionSystem.gravity == old(collisionSystem.gravity)
                && ecsManager.colliders == old(ecsManager.colliders) && ecsManager.entities == old(ecsManager.entities)
                && legacyRigidBodies == RefreshAll(old(legacyRigidBodies), ecsManager.transforms, ecsManager.physics,
                                                   ecsManager.colliders)
      ensures ecsManager != null ==>
                ecsManager.physics.Keys == old(ecsManager.physics.Keys)
                && forall id :: id in old(ecsManager.physics) ==>
                     ecsManager.physics[id] == if old(ecsManager.OwnsAll(id))
                                               then EcsCollision.Integrated(old(ecsManager.physics)[id], collisionSystem.gravity, dt)
                                               else old(ecsManager.physics)[id]
      ensures ecsManager != null ==>
                ecsManager.transforms.Keys == old(ecsManager.transforms.Keys)
                && forall id :: id in old(ecsManager.transforms) ==>
                     ecsManager.transforms[id] == if old(ecsManager.OwnsAll(id))
                                                  then EcsCollision.Moved(old(ecsManager.transforms)[id], ecsManager.physics[id], dt)
                                                  else old(ecsManager.transforms)[id]
      ensures layers == old(layers) && nextLayerId == old(nextLayerId)
      ensures maxRigidBodies == old(maxRigidBodies) && gravity == old(gravity)
    {
      if collisionSystem == null {
        return;
      }
      var bodies := collisionSystem.Update(dt);
      EcsCollision.StepWithLayerZeroRefusedMeaning(
        EcsCollision.Bodies(old(ecsManager.transforms), old(ecsManager.physics)), ecsManager.colliders, bodies,
        collisionSystem.gravity, dt, collisionSystem.broadPhaseEnabled, collisionSystem.collisionResponseEnabled,
        LayerCallback(layers));
      RefreshWrappers();
    }

    /** `setGravity`: recorded, and forwarded to the collision system when there is one. */
    method SetGravity(x: real, y: real, z: real)
      requires Valid()
      modifies this, collisionSystem
      ensures Valid() && gravity == Vec3(x, y, z)
      ensures collisionSystem == old(collisionSystem)
      ensures collisionSystem != null ==> collisionSystem.gravity == Vec3(x, y, z)
      ensures ecsManager == old(ecsManager) && entityFactory == old(entityFactory)
      ensures legacyRigidBodies == old(legacyRigidBodies) && layers == old(layers) && nextLayerId == old(nextLayerId)
      ensures maxRigidBodies == old(maxRigidBodies)
    {
      gravity := Vec3(x, y, z);
      if collisionSystem != null {
        collisionSystem.SetGravity(x, y, z);
      }
    }

    /** `createLayer`: the next layer id, registered under the name with an empty list. */
    method CreateLayer(name: string) returns (id: nat)
      requires 1 <= nextLayerId && WellFormed(layers, nextLayerId) && Symmetric(layers)
      requires WrappersNamed(legacyRigidBodies)
      requires (ecsManager == null <==> entityFactory == null) && (ecsManager == null <==> collisionSystem == null)
      requires ecsManager != null ==> ecsManager.Valid() && entityFactory.ecs == ecsManager
                                      && collisionSystem.ecs == ecsManager
      modifies this, collisionSystem
      ensures Valid()
      ensures id == old(nextLayerId) && id !in old(layers) && nextLayerId == id + 1
      ensures layers == old(layers)[id := PhysicsLayer(id, name, [])]
      ensures ecsManager == old(ecsManager) && entityFactory == old(entityFactory)
      ensures collisionSystem == old(collisionSystem)
      ensures collisionSystem != null ==> collisionSystem.gravity == old(collisionSystem.gravity)
      ensures legacyRigidBodies == old(legacyRigidBodies) && maxRigidBodies == old(maxRigidBodies)
      ensures gravity == old(gravity)
    {
      id := nextLayerId;
      NewLayerKeepsWellFormed(layers, nextLayerId, name, false);
      layers := layers[id := PhysicsLayer(id, name, [])];
      nextLayerId := nextLayerId + 1;
      RefreshCallback();
    }

    /**
     * `setLayerInteraction`: false, changing nothing, unless both layers are
     * registered; otherwise both lists are updated, the second only for two
     * different layers, which gives the same registry as updating both.
     */
    method SetLayerInteraction(l1: nat, l2: nat, canInteract: bool) returns (ok: bool)
      requires Valid()
      modifies this, collisionSystem
      ensures Valid()
      ensures ok == (l1 in old(layers) && l2 in old(layers))
      ensures layers == if ok then Interaction(old(layers), l1, l2, canInteract) else old(layers)
      ensures ecsManager == old(ecsManager) && entityFactory == old(entityFactory)
      ensures collisionSystem == old(collisionSystem)
      ensures collisionSystem != null ==> collisionSystem.gravity == old(collisionSystem.gravity)
      ensures legacyRigidBodies == old(legacyRigidBodies) && nextLayerId == old(nextLayerId)
      ensures maxRigidBodies == old(maxRigidBodies) && gravity == old(gravity)
    {
      if l1 !in layers || l2 !in layers {
        return false;
      }
      InteractionOnceAgrees(layers, l1, l2, canInteract);
      InteractionKeepsWellFormed(layers, nextLayerId, l1, l2, canInteract);
      layers := InteractionOnce(layers, l1, l2, canInteract);
      RefreshCallback();
      ok := true;
    }

    /** `canLayersInteract`, which is also the collision system's layer callback. */
    predicate CanLayersInteract(l1: nat, l2: nat)
      reads this
    {
      LayerCallback(layers)(l1, l2)
    }

    /** `getLayer`: the registered layer, or nothing. */
    function GetLayer(id: nat): (r: Option<PhysicsLayer>)
      reads this
      ensures r.Some? <==> id in layers
      ensures r.Some? ==> r.value == layers[id]
    {
      if id in layers then Some(layers[id]) else None
    }

    function GetLayerCount(): nat
      reads this
    {
      |layers|
    }

    function GetMaxRigidBodies(): nat
      reads this
    {
      maxRigidBodies
    }

    /** `getRigidBodyCount`: 0 before `initialize`, otherwise the store's complete rigid bodies. */
    method GetRigidBodyCount() returns (n: nat)
      requires Valid()
      ensures ecsManager == null ==> n == 0
      ensures ecsManager != null ==> n == |ecsManager.transforms.Keys * ecsManager.physics.Keys * ecsManager.colliders.Keys|
    {
      if entityFactory == null {
        return 0;
      }
      n := entityFactory.GetRigidBodyCount();
    }
  }
}
