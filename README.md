# Verified model of the CPU rigid-body physics core

This project models the CPU side of the engine in Dafny, together with the
collision pipeline that the GPU managers drive from the CPU. It covers:

- **Entity–component stores.** The entity/component manager (`Ecs`) keeps a
  counter of entity ids, a list of live entities and three component tables:
  Transform, Physics and BoxCollider. Its three source copies behave
  identically, so one class models all three. The particle store
  (`ParticleEcs`) bounds the combined size of its two tables by
  `maxParticles`.
- **Component and entity factories.** `ComponentFactory`,
  `EntityFactory` and its divergent variant `EntityFactoryVariant` build
  components and rigid-body entities. Creation rolls back when an insertion
  fails.
- **Concrete components and entities.** `ConcreteComponents` covers
  validation, reset, type and the enabled flag. `ConcreteEntities` covers the
  component map of an entity and its factory.
- **System lifecycle.** `BaseSystem` models the initialized and enabled
  flags, required-component filtering, and the counted processing loop.
- **Collision systems.** There are three:
  - the ECS collision system (`EcsCollision`);
  - the simplified "enhanced" system (`EnhancedCollision`);
  - the self-contained `CPUPhysicsSystem` (`CpuPhysics`).

  Each has its own integration, broad phase, narrow phase, positional
  correction and restitution impulse. The AABB helpers and the pair queries
  shared by the first two live in `EcsContacts`. The nested `i < j` pair
  loop that all of them use is `Pairs`.
- **Layer registries.** There are four, kept apart because their policies
  differ:
  - the list-based registries of `CPUPhysicsSystem` and `CPUPhysicsEngine`
    (`LayerLists`, used by `CpuPhysics` and `CpuEngine`);
  - the bitmask registries `LayerSystem` (`LayerRegistry`) and
    `PhysicsLayerWorker` (`PhysicsLayers`). Both use the 64-bit masks of
    `LayerMasks`.
- **Rigid-body stores.** `RigidBodies` holds the shared body record and the
  inertia formulas. Three stores build on it:
  - the slot store with LIFO id reuse (`RigidBodyStore`);
  - the shape factory with a default material (`RigidBodyFactories`);
  - the manager's worker with positional lookup and Euler steps
    (`RigidBodyWorkers`).
- **GPU-side collision pipeline.** The bounding-sphere broad phase is
  `BroadPhase`. The sphere/box narrow phase, shared by `CollisionSystem` and
  `DetectCollisionWorker`, is `NarrowPhase`. The collision system class is
  `CollisionSystems`.

Modelling conventions:

- Physical quantities are `real` and vectors are `Common.Vec3`. What is
  proved is comparisons, axis and sign choices, ratio splits and algebraic
  identities, not floating-point accuracy.
- `std::sqrt` is a parameter `sqrt: real -> real`. The lemmas that need it
  require `IsSqrt(sqrt)`: a non-negative root whose square is its argument.
- Unsigned counters are `nat`.
- A hash map becomes a Dafny `map`. A loop over a hash map becomes a sequence
  without duplicates whose elements are exactly the keys, because the
  iteration order is unspecified.
- Layer callbacks and entity filters are function-valued parameters.
- Where code copies are identical, one member carries the contract and the
  table below cites every copy.

## Model

| member | source | states |
|---|---|---|
| Ecs.EcsManager.constructor | src/PhysicsEngine/CPUPhysicsEngine/managers/ECSManager/ECSManager.cpp:8-10 | a fresh store has no entities and no components, and the id counter starts at 1; the copies in src/cpu_physics/managers/ecs_manager/ecs_manager.cpp and src/physics_engine/cpu_physics_engine/managers/ecs_manager/ecs_manager.cpp are identical at the same lines |
| Ecs.EcsManager.Find | src/PhysicsEngine/CPUPhysicsEngine/managers/ECSManager/ECSManager.cpp:20-22 | the search over the live list gives the first index holding the id, or the list length exactly when the id is not live |
| Ecs.EcsManager.CreateEntity | src/PhysicsEngine/CPUPhysicsEngine/managers/ECSManager/ECSManager.cpp:12-18 | the new id is the old counter, was not live before, is appended to the live list, and the counter moves up by one; the tables are untouched and every component key stays a live entity; the copies in src/cpu_physics/managers/ecs_manager/ecs_manager.cpp and src/physics_engine/cpu_physics_engine/managers/ecs_manager/ecs_manager.cpp are identical at the same lines |
| Ecs.EcsManager.DestroyEntity | src/PhysicsEngine/CPUPhysicsEngine/managers/ECSManager/ECSManager.cpp:20-36 | answers whether the id was live; the id leaves the live list and all three tables, nothing else changes, and an unknown id changes nothing; the copies in src/cpu_physics/managers/ecs_manager/ecs_manager.cpp and src/physics_engine/cpu_physics_engine/managers/ecs_manager/ecs_manager.cpp are identical at the same lines |
| Ecs.EcsManager.IsEntityValid | src/PhysicsEngine/CPUPhysicsEngine/managers/ECSManager/ECSManager.cpp:38-40 | true exactly for live ids; the copies in src/cpu_physics/managers/ecs_manager/ecs_manager.cpp and src/physics_engine/cpu_physics_engine/managers/ecs_manager/ecs_manager.cpp are identical at the same lines |
| Ecs.EcsManager.AddTransform | src/PhysicsEngine/CPUPhysicsEngine/managers/ECSManager/ECSManager.cpp:42-48 | refused with no change for an id that is not live; for a live id the transform is stored, replacing any earlier one, and the other tables and the live list are unchanged; the copies in src/cpu_physics/managers/ecs_manager/ecs_manager.cpp and src/physics_engine/cpu_physics_engine/managers/ecs_manager/ecs_manager.cpp are identical at the same lines |
| Ecs.EcsManager.AddPhysics | src/PhysicsEngine/CPUPhysicsEngine/managers/ECSManager/ECSManager.cpp:50-56 | as for transforms: live ids only, overwriting, nothing else changes; the copies in src/cpu_physics/managers/ecs_manager/ecs_manager.cpp and src/physics_engine/cpu_physics_engine/managers/ecs_manager/ecs_manager.cpp are identical at the same lines |
| Ecs.EcsManager.AddBoxCollider | src/PhysicsEngine/CPUPhysicsEngine/managers/ECSManager/ECSManager.cpp:58-64 | as for transforms: live ids only, overwriting, nothing else changes; the copies in src/cpu_physics/managers/ecs_manager/ecs_manager.cpp and src/physics_engine/cpu_physics_engine/managers/ecs_manager/ecs_manager.cpp are identical at the same lines |
| Ecs.EcsManager.RemoveComponent | src/PhysicsEngine/CPUPhysicsEngine/managers/ECSManager/ECSManager.cpp:66-75 | true exactly when the named type was present for the id; only that table loses the id, and any other type name changes nothing; the copies in src/cpu_physics/managers/ecs_manager/ecs_manager.cpp and src/physics_engine/cpu_physics_engine/managers/ecs_manager/ecs_manager.cpp are identical at the same lines |
| Ecs.EcsManager.GetTransform | src/PhysicsEngine/CPUPhysicsEngine/managers/ECSManager/ECSManager.cpp:77-80 | a value exactly when the entity has a transform, and it is the stored one; the read-only overload (lines 92-95) answers the same, and the has-query (lines 107-109) holds exactly when a value is found; the copies in src/cpu_physics/managers/ecs_manager/ecs_manager.cpp and src/physics_engine/cpu_physics_engine/managers/ecs_manager/ecs_manager.cpp are identical at the same lines |
| Ecs.EcsManager.GetPhysics | src/PhysicsEngine/CPUPhysicsEngine/managers/ECSManager/ECSManager.cpp:82-85 | a value exactly when the entity has a physics component, and it is the stored one; the read-only overload (lines 97-100) answers the same, and the has-query (lines 111-113) holds exactly when a value is found; the copies in src/cpu_physics/managers/ecs_manager/ecs_manager.cpp and src/physics_engine/cpu_physics_engine/managers/ecs_manager/ecs_manager.cpp are identical at the same lines |
| Ecs.EcsManager.GetBoxCollider | src/PhysicsEngine/CPUPhysicsEngine/managers/ECSManager/ECSManager.cpp:87-90 | a value exactly when the entity has a box collider, and it is the stored one; the read-only overload (lines 102-105) answers the same, and the has-query (lines 115-117) holds exactly when a value is found; the copies in src/cpu_physics/managers/ecs_manager/ecs_manager.cpp and src/physics_engine/cpu_physics_engine/managers/ecs_manager/ecs_manager.cpp are identical at the same lines |
| Ecs.EcsManager.EntitiesWithTransform | src/PhysicsEngine/CPUPhysicsEngine/managers/ECSManager/ECSManager.cpp:119-125 | exactly the keys of the transform table, each once; the copies in src/cpu_physics/managers/ecs_manager/ecs_manager.cpp and src/physics_engine/cpu_physics_engine/managers/ecs_manager/ecs_manager.cpp are identical at the same lines |
| Ecs.EcsManager.EntitiesWithPhysics | src/PhysicsEngine/CPUPhysicsEngine/managers/ECSManager/ECSManager.cpp:127-133 | exactly the keys of the physics table, each once; the copies in src/cpu_physics/managers/ecs_manager/ecs_manager.cpp and src/physics_engine/cpu_physics_engine/managers/ecs_manager/ecs_manager.cpp are identical at the same lines |
| Ecs.EcsManager.EntitiesWithBoxCollider | src/PhysicsEngine/CPUPhysicsEngine/managers/ECSManager/ECSManager.cpp:135-141 | exactly the keys of the collider table, each once; the copies in src/cpu_physics/managers/ecs_manager/ecs_manager.cpp and src/physics_engine/cpu_physics_engine/managers/ecs_manager/ecs_manager.cpp are identical at the same lines |
| Ecs.EcsManager.EntitiesWithAll | src/PhysicsEngine/CPUPhysicsEngine/managers/ECSManager/ECSManager.cpp:238-248 | exactly the live entities owning all three components, in live-list order, with no duplicates |
| Ecs.EcsManager.EntityCountWithAll | src/PhysicsEngine/CPUPhysicsEngine/managers/ECSManager/ECSManager.cpp:251-261 | the count equals the length of the three-component query |
| ParticleEcs.ParticleEcsManager.constructor | src/PhysicsEngine/GPUPhysicsEngine/managers/ecsmanager/ECSManager.h:71-75 | a fresh manager is uninitialized, holds nothing, allows 1024 particles and counts ids from 1 |
| ParticleEcs.ParticleEcsManager.Initialize | src/PhysicsEngine/GPUPhysicsEngine/managers/ecsmanager/ECSManager.cpp:13-31 | true and initialized, with nothing else changed, when already initialized or when reserving succeeds; when `reserve` throws (the `reserveFails` parameter) the catch runs cleanup: false, uninitialized, list and tables empty, counter back to 1, capacity kept |
| ParticleEcs.ParticleEcsManager.Cleanup | src/PhysicsEngine/GPUPhysicsEngine/managers/ecsmanager/ECSManager.cpp:33-39 | empties the entity list and both tables, resets the id counter to 1 and clears the initialized flag; the capacity is kept |
| ParticleEcs.ParticleEcsManager.Find | src/PhysicsEngine/GPUPhysicsEngine/managers/ecsmanager/ECSManager.cpp:60 | the first index holding the id in the live list, or the list length exactly when it is absent |
| ParticleEcs.ParticleEcsManager.CreateEntity | src/PhysicsEngine/GPUPhysicsEngine/managers/ecsmanager/ECSManager.cpp:45-53 | 0 and no change while uninitialized; otherwise the old counter, fresh and at least 1, appended to the live list, with the counter one higher |
| ParticleEcs.ParticleEcsManager.DestroyEntity | src/PhysicsEngine/GPUPhysicsEngine/managers/ecsmanager/ECSManager.cpp:55-73 | true exactly for a live id of an initialized manager; the id then leaves the list and both tables, otherwise nothing changes |
| ParticleEcs.ParticleEcsManager.IsEntityValid | src/PhysicsEngine/GPUPhysicsEngine/managers/ecsmanager/ECSManager.cpp:75-81 | true exactly for live ids of an initialized manager |
| ParticleEcs.ParticleEcsManager.AddParticle | src/PhysicsEngine/GPUPhysicsEngine/managers/ecsmanager/ECSManager.cpp:83-95 | accepted exactly when initialized, the id is live and the two tables together are below the capacity (so an overwrite at capacity is refused); the combined size never exceeds the capacity |
| ParticleEcs.ParticleEcsManager.AddOffloadedParticle | src/PhysicsEngine/GPUPhysicsEngine/managers/ecsmanager/ECSManager.cpp:97-109 | the same rule for the offloading table; only that table changes |
| ParticleEcs.ParticleEcsManager.RemoveParticle | src/PhysicsEngine/GPUPhysicsEngine/managers/ecsmanager/ECSManager.cpp:111-117 | true exactly when initialized and the id has a particle, which is then dropped; nothing else changes |
| ParticleEcs.ParticleEcsManager.RemoveOffloadedParticle | src/PhysicsEngine/GPUPhysicsEngine/managers/ecsmanager/ECSManager.cpp:119-125 | true exactly when initialized and the id has an offloaded particle, which is then dropped |
| ParticleEcs.ParticleEcsManager.GetParticle | src/PhysicsEngine/GPUPhysicsEngine/managers/ecsmanager/ECSManager.cpp:127-134 | a value exactly when the entity has a particle (never while uninitialized), and it is the stored one; the read-only overload (lines 145-152) answers the same, and hasParticleComponent (lines 163-169) holds exactly when a value is found |
| ParticleEcs.ParticleEcsManager.GetOffloadedParticle | src/PhysicsEngine/GPUPhysicsEngine/managers/ecsmanager/ECSManager.cpp:136-143 | a value exactly when the entity has an offloaded particle, and it is the stored one; the read-only overload (lines 154-161) answers the same, and hasParticleComponentWithCPUOffloading (lines 171-177) holds exactly when a value is found |
| ParticleEcs.ParticleEcsManager.EntitiesWithParticle | src/PhysicsEngine/GPUPhysicsEngine/managers/ecsmanager/ECSManager.cpp:179-190 | the particle table's keys, each once; empty while uninitialized |
| ParticleEcs.ParticleEcsManager.EntitiesWithOffloadedParticle | src/PhysicsEngine/GPUPhysicsEngine/managers/ecsmanager/ECSManager.cpp:192-203 | the offloading table's keys, each once; empty while uninitialized |
| ParticleEcs.ParticleEcsManager.AllParticleEntities | src/PhysicsEngine/GPUPhysicsEngine/managers/ecsmanager/ECSManager.cpp:205-219 | the regular-table ids followed by the offloading-table ids; its length is the combined count and it names exactly the entities of either table; each segment is free of duplicates and names exactly its own table's keys (`Segmented`) |
| ParticleEcs.TwoSegments | src/PhysicsEngine/GPUPhysicsEngine/managers/ecsmanager/ECSManager.cpp:205-219 | two duplicate-free key lists laid end to end form two segments each naming exactly its own key set, and the whole names the union |
| ParticleEcs.ParticleEcsManager.SetMaxParticles | src/PhysicsEngine/GPUPhysicsEngine/managers/ecsmanager/ECSManager.cpp:247-255 | refused with no change while initialized; otherwise the capacity becomes the new value |
| Components.InverseMassOf | src/cpu_physics/CPUPhysicsSystem.cpp:60-64 | a positive mass gives a positive inverse mass, anything else gives 0 |
| Components.InverseMassIsReciprocal | src/cpu_physics/CPUPhysicsSystem.cpp:60-64 | for a positive mass the inverse mass times the mass is 1 |
| ComponentFactory.MassRuleMeaning | src/PhysicsEngine/CPUPhysicsEngine/factories/RigidbodyComponentFactory.cpp:176-182 | under the factory's inverse-mass rule a static or massless component has inverse mass 0 and any other has the positive reciprocal of its mass |
| ComponentFactory.CreateTransformComponent | src/PhysicsEngine/CPUPhysicsEngine/factories/RigidbodyComponentFactory.cpp:11-27 | the transform holds the given position and scale and the identity rotation (1,0,0,0) |
| ComponentFactory.CreatedRotationIsUnit | src/PhysicsEngine/CPUPhysicsEngine/factories/RigidbodyComponentFactory.cpp:168-174 | the starting rotation is a unit quaternion |
| ComponentFactory.CalculateInverseMass | src/PhysicsEngine/CPUPhysicsEngine/factories/RigidbodyComponentFactory.cpp:176-182 | the inverse mass obeys the rule for the stored mass and static flag, and no other field changes |
| ComponentFactory.CreatePhysicsComponent | src/PhysicsEngine/CPUPhysicsEngine/factories/RigidbodyComponentFactory.cpp:29-50 | zero linear and angular velocity, the given mass, flags and material, and the inverse-mass rule (0 when static or mass at most 0, else 1/mass) |
| ComponentFactory.CreateBoxColliderComponent | src/PhysicsEngine/CPUPhysicsEngine/factories/RigidbodyComponentFactory.cpp:52-65 | the collider has the given dimensions and enabled flag |
| ComponentFactory.CreateTransformAt | src/PhysicsEngine/CPUPhysicsEngine/factories/RigidbodyComponentFactory.cpp:67-69 | a transform at the point with unit scale |
| ComponentFactory.CreateStaticPhysics | src/PhysicsEngine/CPUPhysicsEngine/factories/RigidbodyComponentFactory.cpp:71-73 | mass and inverse mass 0, static, no gravity, restitution 0.3, friction 0.8 |
| ComponentFactory.CreateDynamicPhysics | src/PhysicsEngine/CPUPhysicsEngine/factories/RigidbodyComponentFactory.cpp:75-77 | the given mass, not static, with gravity, restitution 0.5, friction 0.3, inverse mass by the mass rule |
| ComponentFactory.CreateBoxCollider | src/PhysicsEngine/CPUPhysicsEngine/factories/RigidbodyComponentFactory.cpp:79-81 | an enabled collider of the given dimensions |
| ComponentFactory.SetTransformPosition | src/PhysicsEngine/CPUPhysicsEngine/factories/RigidbodyComponentFactory.cpp:145-149 | only the position changes, so validity is unaffected |
| ComponentFactory.SetTransformScale | src/PhysicsEngine/CPUPhysicsEngine/factories/RigidbodyComponentFactory.cpp:151-155 | only the scale changes; the result validates exactly when all three scales are positive |
| ComponentFactory.SetPhysicsVelocity | src/PhysicsEngine/CPUPhysicsEngine/factories/RigidbodyComponentFactory.cpp:157-161 | only the velocity changes, so validity and the mass rule are unaffected |
| ComponentFactory.UpdatePhysicsMass | src/PhysicsEngine/CPUPhysicsEngine/factories/RigidbodyComponentFactory.cpp:163-166 | the new mass is stored and the inverse-mass rule is re-established for it; nothing else changes |
| ComponentFactory.BuildersValidate | src/PhysicsEngine/CPUPhysicsEngine/factories/RigidbodyComponentFactory.cpp:67-143 | the point transform, the static physics, dynamic physics of non-negative mass and a collider of positive dimensions all pass their validators |
| ComponentFactory.PhysicsValidatorRejects | src/PhysicsEngine/CPUPhysicsEngine/factories/RigidbodyComponentFactory.cpp:106-127 | a physics component is rejected exactly when its mass is negative or its restitution or friction lies outside [0, 1] |
| ComponentFactory.UpdatePhysicsMassTwice | src/PhysicsEngine/CPUPhysicsEngine/factories/RigidbodyComponentFactory.cpp:163-166 | updating the mass twice is the same as updating it once to the second value |
| ConcreteComponents.ComponentData.Type | src/PhysicsEngine/CPUPhysicsEngine/concrete/ConcreteComponents.cpp:16-18 | the type tag is TRANSFORM, PHYSICS or BOX_COLLIDER exactly for the matching kind; the physics class's getType (lines 73-75) is PHYSICS |
| ConcreteComponents.ComponentData.WithEnabled | src/PhysicsEngine/CPUPhysicsEngine/concrete/ConcreteComponents.cpp:151-153 | setting the flag keeps the kind and makes the flag read back as set; isEnabled of the transform and physics classes (lines 24-26, 81-83) reads that flag back |
| ConcreteComponents.ComponentData.Reset | src/PhysicsEngine/CPUPhysicsEngine/concrete/ConcreteComponents.cpp:48-54 | a reset keeps the kind and leaves the component enabled |
| ConcreteComponents.ComponentData.Cloned | src/PhysicsEngine/CPUPhysicsEngine/concrete/ConcreteComponents.cpp:56-58 | a clone has the same kind as its original |
| ConcreteComponents.WithEnabledRoundTrip | src/PhysicsEngine/CPUPhysicsEngine/concrete/ConcreteComponents.cpp:28-30 | setting the flag and then setting it back restores the component; setting it twice is setting it once |
| ConcreteComponents.EnabledIgnoredByValidate | src/PhysicsEngine/CPUPhysicsEngine/concrete/ConcreteComponents.cpp:147-153 | the enabled flag plays no part in validation |
| ConcreteComponents.ResetIsDefault | src/PhysicsEngine/CPUPhysicsEngine/concrete/ConcreteComponents.cpp:110-120 | a reset gives the default record of its kind: origin, identity rotation and unit scale; zero velocities, mass and inverse mass 1, restitution 0.5, friction 0.3, dynamic with gravity; unit box, enabled |
| ConcreteComponents.ResetForgetsState | src/PhysicsEngine/CPUPhysicsEngine/concrete/ConcreteComponents.cpp:171-174 | the result of a reset depends on the kind alone, and a second reset changes nothing |
| ConcreteComponents.ResetValidates | src/PhysicsEngine/CPUPhysicsEngine/concrete/ConcreteComponents.cpp:48-54 | every reset component validates |
| ConcreteComponents.ClonedIsCopy | src/PhysicsEngine/CPUPhysicsEngine/concrete/ConcreteComponents.cpp:176-178 | a box collider clone is an exact copy; a transform or physics clone equals the original except that it is enabled |
| ConcreteComponents.ClonedValidates | src/PhysicsEngine/CPUPhysicsEngine/concrete/ConcreteComponents.cpp:122-124 | a clone validates exactly when its original does |
| ConcreteComponents.TransformValidateVsFactory | src/PhysicsEngine/CPUPhysicsEngine/concrete/ConcreteComponents.cpp:32-46 | a transform validates exactly when every scale is positive and the quaternion's squared norm lies strictly between 0.9 and 1.1 |
| ConcreteComponents.PhysicsValidateVsFactory | src/PhysicsEngine/CPUPhysicsEngine/concrete/ConcreteComponents.cpp:89-108 | a physics record the factory accepts and whose inverse mass follows the mass rule validates; conversely a validating record with friction at most 1 passes the factory check |
| ConcreteComponents.BoxValidateVsFactory | src/PhysicsEngine/CPUPhysicsEngine/concrete/ConcreteComponents.cpp:155-169 | a box validates exactly when all three dimensions are positive |
| ConcreteComponents.ConcreteComponent.constructor | src/PhysicsEngine/CPUPhysicsEngine/concrete/ConcreteComponents.cpp:8-10 | the object holds the given record |
| ConcreteComponents.ConcreteComponent.SetEnabled | src/PhysicsEngine/CPUPhysicsEngine/concrete/ConcreteComponents.cpp:85-87 | the flag reads back as set and the type tag is unchanged |
| ConcreteComponents.ConcreteComponent.Reset | src/PhysicsEngine/CPUPhysicsEngine/concrete/ConcreteComponents.cpp:110-120 | the record becomes the reset record of its kind, enabled, with the same type tag |
| ConcreteComponents.ConcreteComponent.Clone | src/PhysicsEngine/CPUPhysicsEngine/concrete/ConcreteComponents.cpp:139-141 | a fresh object holding the cloned record, with the same type tag |
| ConcreteEntities.ConcreteEntity.constructor | src/PhysicsEngine/CPUPhysicsEngine/concrete/ConcreteEntity.cpp:12-13 | a new entity has the given id, is active, on layer 0, without user data and without components |
| ConcreteEntities.ConcreteEntity.SetActive | src/PhysicsEngine/CPUPhysicsEngine/concrete/ConcreteEntity.cpp:23-25 | only the active flag changes |
| ConcreteEntities.ConcreteEntity.SetPhysicsLayer | src/PhysicsEngine/CPUPhysicsEngine/concrete/ConcreteEntity.cpp:137-139 | only the layer changes |
| ConcreteEntities.ConcreteEntity.SetUserData | src/PhysicsEngine/CPUPhysicsEngine/concrete/ConcreteEntity.cpp:145-147 | only the user handle changes |
| ConcreteEntities.ConcreteEntity.AddComponent | src/PhysicsEngine/CPUPhysicsEngine/concrete/ConcreteEntity.cpp:27-41 | accepted exactly when the component is not null and no component of its type is stored; then it is stored under its type, otherwise nothing changes (no overwrite) |
| ConcreteEntities.ConcreteEntity.RemoveComponent | src/PhysicsEngine/CPUPhysicsEngine/concrete/ConcreteEntity.cpp:43-51 | true exactly when the type was present; afterwards it is absent and the other components are kept |
| ConcreteEntities.ConcreteEntity.GetComponent | src/PhysicsEngine/CPUPhysicsEngine/concrete/ConcreteEntity.cpp:53-67 | non-null exactly when a component of that type is stored, and then it is that component, whose type tag is the requested one; hasComponent (lines 69-71) holds exactly when it is non-null |
| ConcreteEntities.ConcreteEntity.GetAllComponents | src/PhysicsEngine/CPUPhysicsEngine/concrete/ConcreteEntity.cpp:73-93 | every stored component exactly once; the length is the component count; getComponentCount (lines 95-97) is that length |
| ConcreteEntities.ConcreteEntity.Validate | src/PhysicsEngine/CPUPhysicsEngine/concrete/ConcreteEntity.cpp:99-108 | true exactly when every stored component validates |
| ConcreteEntities.ConcreteEntity.Reset | src/PhysicsEngine/CPUPhysicsEngine/concrete/ConcreteEntity.cpp:110-115 | no components remain; active, layer 0, no user data |
| ConcreteEntities.ConcreteEntity.Clone | src/PhysicsEngine/CPUPhysicsEngine/concrete/ConcreteEntity.cpp:117-131 | a fresh entity with the same id, active flag, layer and user data, holding a fresh clone of every component under the same type |
| ConcreteEntities.ConcreteEntity.CloneAll | src/PhysicsEngine/CPUPhysicsEngine/concrete/ConcreteEntity.cpp:124-128 | the clone loop gives a fresh clone of each stored component, under the same set of types |
| ConcreteEntities.ListedValues | src/PhysicsEngine/CPUPhysicsEngine/concrete/ConcreteEntity.cpp:73-82 | listing the values through a duplicate-free list of all keys names every stored component exactly once |
| ConcreteEntities.RigidBodyTransformData | src/PhysicsEngine/CPUPhysicsEngine/concrete/ConcreteEntity.cpp:168-182 | the rigid-body entity's first component is an enabled transform |
| ConcreteEntities.RigidBodyPhysicsData | src/PhysicsEngine/CPUPhysicsEngine/concrete/ConcreteEntity.cpp:184-194 | the second is an enabled physics component |
| ConcreteEntities.RigidBodyColliderData | src/PhysicsEngine/CPUPhysicsEngine/concrete/ConcreteEntity.cpp:196-204 | the third is an enabled box collider |
| ConcreteEntities.RigidBodyDataMatchesFactory | src/PhysicsEngine/CPUPhysicsEngine/concrete/ConcreteEntity.cpp:158-207 | the starting components are the factory's: a transform at the position with unit scale, physics with static = (mass at most 0), gravity = not static, inverse mass 1/m or 0, restitution 0.5, friction 0.3, and an enabled box of the given size |
| ConcreteEntities.ZeroMassIsStatic | src/PhysicsEngine/CPUPhysicsEngine/concrete/ConcreteEntity.cpp:209-217 | the mass-0 entity is static, without gravity and with inverse mass 0 |
| ConcreteEntities.RigidBodyDataValidates | src/PhysicsEngine/CPUPhysicsEngine/concrete/ConcreteEntity.cpp:158-207 | the three starting components all validate exactly when the dimensions are positive and the mass is not negative |
| ConcreteEntities.CreateBasicEntity | src/PhysicsEngine/CPUPhysicsEngine/concrete/ConcreteEntity.cpp:154-156 | a fresh entity with the id and no components |
| ConcreteEntities.CreateRigidBodyEntity | src/PhysicsEngine/CPUPhysicsEngine/concrete/ConcreteEntity.cpp:158-207 | a fresh entity on the given layer holding exactly a transform, a physics and a box collider component with the starting data above |
| ConcreteEntities.CreateStaticEntity | src/PhysicsEngine/CPUPhysicsEngine/concrete/ConcreteEntity.cpp:209-217 | the same with mass 0, so the physics component is static, without gravity and with inverse mass 0 |
| BaseSystem.ProcessedUpTo | src/PhysicsEngine/CPUPhysicsEngine/systems/BaseCPUPhysicsSystem.cpp:66-82 | the entities the update loop has handed over after n entries are at most n |
| BaseSystem.BaseCpuPhysicsSystem.constructor | src/PhysicsEngine/CPUPhysicsEngine/systems/BaseCPUPhysicsSystem.cpp:7-12 | a new system keeps the store and the required types, is not initialized, is enabled, has no filter and a zero entity count |
| BaseSystem.BaseCpuPhysicsSystem.Initialize | src/PhysicsEngine/CPUPhysicsEngine/systems/BaseCPUPhysicsSystem.cpp:14-28 | succeeds exactly when already initialized or a store is present, and then the system validates; a repeat call changes nothing; the enabled flag is not touched; validate (lines 104-110) holds exactly when a store is present and the system is initialized |
| BaseSystem.BaseCpuPhysicsSystem.Cleanup | src/PhysicsEngine/CPUPhysicsEngine/systems/BaseCPUPhysicsSystem.cpp:30-42 | an initialized system ends uninitialized and disabled with no filter and zero statistics; an uninitialized one is left alone |
| BaseSystem.BaseCpuPhysicsSystem.Reset | src/PhysicsEngine/CPUPhysicsEngine/systems/BaseCPUPhysicsSystem.cpp:112-114 | reset has exactly the effect of cleanup |
| BaseSystem.BaseCpuPhysicsSystem.SetEnabled | src/PhysicsEngine/CPUPhysicsEngine/systems/BaseCPUPhysicsSystem.h:33 | only the enabled flag changes |
| BaseSystem.BaseCpuPhysicsSystem.SetEntityFilter | src/PhysicsEngine/CPUPhysicsEngine/systems/BaseCPUPhysicsSystem.cpp:116-118 | only the filter changes, to the given predicate |
| BaseSystem.BaseCpuPhysicsSystem.ClearEntityFilter | src/PhysicsEngine/CPUPhysicsEngine/systems/BaseCPUPhysicsSystem.cpp:120-122 | only the filter changes, to none |
| BaseSystem.BaseCpuPhysicsSystem.Update | src/PhysicsEngine/CPUPhysicsEngine/systems/BaseCPUPhysicsSystem.cpp:44-58 | the derived update runs exactly when the system is initialized and enabled, so after cleanup and initialize it stays idle until re-enabled |
| BaseSystem.BaseCpuPhysicsSystem.CanProcessEntity | src/PhysicsEngine/CPUPhysicsEngine/systems/BaseCPUPhysicsSystem.cpp:88-102 | false for a null or inactive entity, otherwise true exactly when the entity holds every required type |
| BaseSystem.BaseCpuPhysicsSystem.UpdateEntities | src/PhysicsEngine/CPUPhysicsEngine/systems/BaseCPUPhysicsSystem.cpp:60-86 | when initialized and enabled, exactly the processable entities the filter accepts are handed over, in order, and the entity count becomes their number; otherwise nothing happens |
| BaseSystem.BaseCpuPhysicsSystem.EntityHasRequiredComponents | src/PhysicsEngine/CPUPhysicsEngine/systems/BaseCPUPhysicsSystem.cpp:165-195 | false without a store or for any required type other than the three known ones; otherwise true exactly when the store holds every required component |
| BaseSystem.BaseCpuPhysicsSystem.GetEntitiesWithRequiredComponents | src/PhysicsEngine/CPUPhysicsEngine/systems/BaseCPUPhysicsSystem.cpp:140-163 | empty without a store or without required types; otherwise exactly the transform owners holding every required type, each once |
| BaseSystem.ProcessedByMembers | src/PhysicsEngine/CPUPhysicsEngine/systems/BaseCPUPhysicsSystem.cpp:66-82 | an entity is handed over exactly when it is in the list, processable and accepted by the filter |
| BaseSystem.ProcessedUpToMembers | src/PhysicsEngine/CPUPhysicsEngine/systems/BaseCPUPhysicsSystem.cpp:66-82 | the same holds for every prefix of the list the loop has visited |
| BaseSystem.NoFilterProcessesEveryProcessable | src/PhysicsEngine/CPUPhysicsEngine/systems/BaseCPUPhysicsSystem.cpp:60-86 | without a filter, exactly the processable entities are handed over |
| EntityFactory.AcceptedSpecs | src/PhysicsEngine/CPUPhysicsEngine/factories/RigidbodyEntityFactory.cpp:147-167 | a batch accepts no more specs than it was given |
| EntityFactory.BodyPhysicsByMass | src/PhysicsEngine/CPUPhysicsEngine/factories/RigidbodyEntityFactory.cpp:25-27 | a positive mass gives dynamic physics with gravity and inverse mass 1/m; mass 0 gives static physics without gravity and inverse mass 0; both validate |
| EntityFactory.RigidBodyEntityFactory.constructor | src/PhysicsEngine/CPUPhysicsEngine/factories/RigidbodyEntityFactory.cpp:7-10 | the factory works on the given store |
| EntityFactory.RigidBodyEntityFactory.RigidBodyIsLive | src/PhysicsEngine/CPUPhysicsEngine/factories/RigidbodyEntityFactory.cpp:128-133 | an entity holding all three components is live, since component keys are always live |
| EntityFactory.RigidBodyEntityFactory.IsValidRigidBody | src/PhysicsEngine/CPUPhysicsEngine/factories/RigidbodyEntityFactory.cpp:128-133 | true exactly for live entities holding a transform, a physics and a box collider |
| EntityFactory.RigidBodyEntityFactory.AddAllComponents | src/PhysicsEngine/CPUPhysicsEngine/factories/RigidbodyEntityFactory.cpp:195-220 | succeeds exactly for a live id, then stores all three components; for a dead id the store is unchanged |
| EntityFactory.RigidBodyEntityFactory.CreateRigidBodyWithComponents | src/PhysicsEngine/CPUPhysicsEngine/factories/RigidbodyEntityFactory.cpp:75-113 | all three components are validated before any entity exists, so a refusal (id 0) leaves the store untouched; a nonzero id is a new, complete rigid body holding exactly the given components, so no partial body survives |
| EntityFactory.RigidBodyEntityFactory.CreateRigidBody | src/PhysicsEngine/CPUPhysicsEngine/factories/RigidbodyEntityFactory.cpp:12-31 | nonzero exactly when the dimensions are positive and the mass is not negative; 0 leaves the store untouched; otherwise a new body at the position whose physics is dynamic for positive mass and static for mass 0; validateRigidBodyParameters (lines 222-248) is that check, ignoring the position |
| EntityFactory.RigidBodyEntityFactory.CreateStaticRigidBody | src/PhysicsEngine/CPUPhysicsEngine/factories/RigidbodyEntityFactory.cpp:33-43 | no parameter check of its own: bad dimensions are caught by the collider validator, giving 0 and no change; otherwise a new body with static physics |
| EntityFactory.RigidBodyEntityFactory.CreateDynamicRigidBody | src/PhysicsEngine/CPUPhysicsEngine/factories/RigidbodyEntityFactory.cpp:45-61 | a mass at most 0 is replaced by 1.0; nonzero exactly for positive dimensions, and then a new body with dynamic physics of that mass |
| EntityFactory.RigidBodyEntityFactory.CreateKinematicRigidBody | src/PhysicsEngine/CPUPhysicsEngine/factories/RigidbodyEntityFactory.cpp:63-73 | nonzero exactly for positive dimensions; the body has mass 0 and is neither static nor under gravity |
| EntityFactory.RigidBodyEntityFactory.DestroyRigidBody | src/PhysicsEngine/CPUPhysicsEngine/factories/RigidbodyEntityFactory.cpp:115-126 | false with no change unless the id is a valid rigid body; otherwise the entity and its three components are removed |
| EntityFactory.RigidBodyEntityFactory.CreateBatchEntry | src/PhysicsEngine/CPUPhysicsEngine/factories/RigidbodyEntityFactory.cpp:153-160 | one batch entry yields a nonzero id exactly when its spec is accepted; 0 leaves the store untouched; otherwise the id is the old counter, fresh in all three tables, and is added holding the transform at the spec's position, the spec's mass physics (`BodyPhysics`) and its box collider, nothing else changing |
| EntityFactory.RigidBodyEntityFactory.BatchStep | src/PhysicsEngine/CPUPhysicsEngine/factories/RigidbodyEntityFactory.cpp:153-160 | one turn of the batch loop appends the next counter value exactly when the spec was accepted, and the batch tables then hold that spec's components under it with every earlier entry kept |
| EntityFactory.RigidBodyEntityFactory.CreateRigidBodyBatch | src/PhysicsEngine/CPUPhysicsEngine/factories/RigidbodyEntityFactory.cpp:147-167 | one id per accepted spec, in request order, consecutive from the old counter (`Consecutive`, which `ConsecutiveIsRange` equates with the id range), appended to the live list; the k-th id holds exactly the transform, physics and collider built from the k-th accepted spec; every entry that existed before keeps its component and no other key appears; never more ids than specs |
| EntityFactory.AddKeepsOld | src/PhysicsEngine/CPUPhysicsEngine/factories/RigidbodyEntityFactory.cpp:156 | adding a fresh id to all three tables keeps every earlier entry, adds exactly that key and stores the given components under it |
| EntityFactory.BatchTablesSnoc | src/PhysicsEngine/CPUPhysicsEngine/factories/RigidbodyEntityFactory.cpp:154-160 | appending one accepted spec's fresh id with that spec's components keeps the batch tables: earlier ids keep their specs' components and old entries are kept |
| EntityFactory.ConsecutiveIsRange | src/PhysicsEngine/CPUPhysicsEngine/factories/RigidbodyEntityFactory.cpp:154-160 | ids counting up by one from the first are exactly the range of ids from the first, in both directions |
| EntityFactory.AcceptedPrefixSnoc | src/PhysicsEngine/CPUPhysicsEngine/factories/RigidbodyEntityFactory.cpp:154-160 | the accepted specs of one more spec prefix are those of the shorter prefix plus the new spec exactly when it is accepted |
| EntityFactory.RigidBodyEntityFactory.GetRigidBodyCount | src/PhysicsEngine/CPUPhysicsEngine/factories/RigidbodyEntityFactory.cpp:169-180 | the number of entities holding all three components |
| EntityFactory.RigidBodyEntityFactory.GetAllRigidBodies | src/PhysicsEngine/CPUPhysicsEngine/factories/RigidbodyEntityFactory.cpp:182-193 | exactly the valid rigid bodies, each once; the length equals the rigid body count |
| EntityFactory.RigidBodyEntityFactory.KeepRigidBodies | src/PhysicsEngine/CPUPhysicsEngine/factories/RigidbodyEntityFactory.cpp:185-191 | the loop keeps exactly the listed entities that are rigid bodies, in order |
| EntityFactory.AcceptedSpecsSnoc | src/PhysicsEngine/CPUPhysicsEngine/factories/RigidbodyEntityFactory.cpp:153-160 | one more spec adds itself to the accepted ones exactly when it is accepted |
| EntityFactoryVariant.SameParameterCheck | src/PhysicsEngine/CPUPhysicsEngine/factories/entities/RigidbodyEntityFactory.cpp:133-139 | the parameter check holds exactly when all dimensions are positive and the mass is not negative, the same as the other factory's; the position plays no part |
| EntityFactoryVariant.ZeroMassStaysDynamic | src/PhysicsEngine/CPUPhysicsEngine/factories/entities/RigidbodyEntityFactory.cpp:14-18 | since creation always asks for dynamic physics, mass 0 gives a body that is not static, is under gravity and has inverse mass 0 |
| EntityFactoryVariant.RigidBodyEntityFactory.constructor | src/PhysicsEngine/CPUPhysicsEngine/factories/entities/RigidbodyEntityFactory.cpp:6-7 | the factory works on the given store |
| EntityFactoryVariant.RigidBodyEntityFactory.AddAllComponents | src/PhysicsEngine/CPUPhysicsEngine/factories/entities/RigidbodyEntityFactory.cpp:119-131 | always reports success; the three components are stored exactly when the id is live |
| EntityFactoryVariant.RigidBodyEntityFactory.CreateRigidBodyWithComponents | src/PhysicsEngine/CPUPhysicsEngine/factories/entities/RigidbodyEntityFactory.cpp:57-68 | no validation: any three components become a new complete rigid body with a nonzero id |
| EntityFactoryVariant.RigidBodyEntityFactory.CreateRigidBody | src/PhysicsEngine/CPUPhysicsEngine/factories/entities/RigidbodyEntityFactory.cpp:9-24 | nonzero exactly for valid parameters, and then a new complete body with dynamic physics whatever the mass; 0 leaves the store untouched |
| EntityFactoryVariant.RigidBodyEntityFactory.CreateStaticRigidBody | src/PhysicsEngine/CPUPhysicsEngine/factories/entities/RigidbodyEntityFactory.cpp:26-39 | no validation: always a new body with static physics, even for non-positive dimensions |
| EntityFactoryVariant.RigidBodyEntityFactory.CreateDynamicRigidBody | src/PhysicsEngine/CPUPhysicsEngine/factories/entities/RigidbodyEntityFactory.cpp:41-47 | the same as creating a rigid body with the given mass |
| EntityFactoryVariant.RigidBodyEntityFactory.CreateKinematicRigidBody | src/PhysicsEngine/CPUPhysicsEngine/factories/entities/RigidbodyEntityFactory.cpp:49-55 | the same as creating a static body |
| EntityFactoryVariant.RigidBodyEntityFactory.DestroyRigidBody | src/PhysicsEngine/CPUPhysicsEngine/factories/entities/RigidbodyEntityFactory.cpp:70-76 | false with no change for a dead entity; otherwise its three components and the entity are removed |
| EntityFactoryVariant.RigidBodyEntityFactory.IsValidRigidBody | src/PhysicsEngine/CPUPhysicsEngine/factories/entities/RigidbodyEntityFactory.cpp:78-83 | true exactly for live entities holding all three components |
| EntityFactoryVariant.RigidBodyEntityFactory.CreateBatchEntry | src/PhysicsEngine/CPUPhysicsEngine/factories/entities/RigidbodyEntityFactory.cpp:102-107 | one batch entry yields a nonzero id exactly when its spec is valid; 0 leaves the store untouched; otherwise the id is the old counter, fresh in all three tables, and is added holding the unit-scale transform at the spec's position, dynamic physics of the spec's mass and its box collider, nothing else changing |
| EntityFactoryVariant.RigidBodyEntityFactory.BatchStep | src/PhysicsEngine/CPUPhysicsEngine/factories/entities/RigidbodyEntityFactory.cpp:102-107 | one turn of the batch loop gives 0 exactly for a refused spec and otherwise the next id, which then holds that spec's components, with every earlier entry kept |
| EntityFactoryVariant.RigidBodyEntityFactory.CreateRigidBodyBatch | src/PhysicsEngine/CPUPhysicsEngine/factories/entities/RigidbodyEntityFactory.cpp:97-109 | exactly one entry per spec, in order, 0 exactly for the refused ones; the nonzero ids are consecutive from the old counter and appended to the live list; each nonzero entry holds exactly the components built from the spec at its own position; every entry that existed before keeps its component and no other key appears |
| EntityFactoryVariant.BatchTablesSnoc | src/PhysicsEngine/CPUPhysicsEngine/factories/entities/RigidbodyEntityFactory.cpp:102-107 | the entry for the next spec keeps the batch tables: a fresh nonzero id is added with that spec's components and earlier entries keep theirs; a 0 changes nothing |
| EntityFactoryVariant.RigidBodyEntityFactory.GetRigidBodyCount | src/PhysicsEngine/CPUPhysicsEngine/factories/entities/RigidbodyEntityFactory.cpp:111-113 | the count is the length of the list of live entities owning all three components |
| EntityFactoryVariant.RigidBodyEntityFactory.GetAllRigidBodies | src/PhysicsEngine/CPUPhysicsEngine/factories/entities/RigidbodyEntityFactory.cpp:115-117 | exactly the live entities owning all three components, in live-list order |
| EntityFactoryVariant.BatchIdsSnoc | src/PhysicsEngine/CPUPhysicsEngine/factories/entities/RigidbodyEntityFactory.cpp:102-107 | appending the next entry keeps the batch shape: one entry per visited spec, 0 exactly for refused ones, nonzero ids consecutive |
| EntityFactoryVariant.NonZero | src/PhysicsEngine/CPUPhysicsEngine/factories/entities/RigidbodyEntityFactory.cpp:97-109 | the nonzero entries of a batch are no more than its entries |
| EntityFactoryVariant.NonZeroSnoc | src/PhysicsEngine/CPUPhysicsEngine/factories/entities/RigidbodyEntityFactory.cpp:102-107 | one more entry adds itself to the nonzero ones exactly when it is nonzero |
| LayerLists.Without | src/physics_engine/cpu_physics_engine/CPUPhysicsEngine.cpp:164 | erasing drops every occurrence of the layer and keeps the others |
| LayerLists.WithoutNoDup | src/physics_engine/cpu_physics_engine/CPUPhysicsEngine.cpp:164 | erasing keeps a duplicate-free list duplicate-free |
| LayerLists.WithoutAbsent | src/physics_engine/cpu_physics_engine/CPUPhysicsEngine.cpp:164 | erasing an absent layer changes nothing |
| LayerLists.Linked | src/physics_engine/cpu_physics_engine/CPUPhysicsEngine.cpp:150-152 | adding to one layer's list keeps the set of registered layers |
| LayerLists.Unlinked | src/physics_engine/cpu_physics_engine/CPUPhysicsEngine.cpp:164-168 | erasing from one layer's list keeps the set of registered layers |
| LayerLists.Interaction | src/physics_engine/cpu_physics_engine/CPUPhysicsEngine.cpp:137-176 | updating two registered layers keeps the set of registered layers |
| LayerLists.InteractionOnceAgrees | src/physics_engine/cpu_physics_engine/CPUPhysicsEngine.cpp:154-168 | skipping the second list for a self-pair gives the same registry as updating it twice |
| LayerLists.InteractionMeaning | src/physics_engine/cpu_physics_engine/CPUPhysicsEngine.cpp:137-176 | afterwards the two layers interact, in both directions, exactly when asked to; every other pair interacts as before; no id or name changes; the same holds at src/cpu_physics/CPUPhysicsSystem.cpp:135-164 |
| LayerLists.InteractionIdempotent | src/physics_engine/cpu_physics_engine/CPUPhysicsEngine.cpp:137-176 | repeating the same request changes nothing more |
| LayerLists.LayerZeroInteractsWithNothing | src/physics_engine/cpu_physics_engine/CPUPhysicsEngine.cpp:178-186 | layer 0 is never registered, so it interacts with nothing and nothing with it; the same holds at src/cpu_physics/CPUPhysicsSystem.cpp:166-174 |
| LayerLists.NewLayerKeepsWellFormed | src/physics_engine/cpu_physics_engine/CPUPhysicsEngine.cpp:126-135 | registering the next id with an empty list keeps lists duplicate-free and naming registered layers, and keeps symmetry; the same holds at src/cpu_physics/CPUPhysicsSystem.cpp:121-133 |
| LayerLists.InteractionKeepsWellFormed | src/physics_engine/cpu_physics_engine/CPUPhysicsEngine.cpp:137-176 | setting an interaction keeps lists duplicate-free and naming registered layers, and keeps symmetry |
| LayerLists.LinkedKeepsWellFormed | src/physics_engine/cpu_physics_engine/CPUPhysicsEngine.cpp:150-152 | adding a registered layer without duplicating it keeps the registry well formed |
| LayerLists.UnlinkedKeepsWellFormed | src/physics_engine/cpu_physics_engine/CPUPhysicsEngine.cpp:164-168 | erasing keeps the registry well formed |
| CpuEngine.EngineCallbackRefusesAll | src/physics_engine/cpu_physics_engine/CPUPhysicsEngine.cpp:24-31 | the collision system asks the installed callback about layers (0, 0) only and layer 0 is never registered, so no pair of entities may ever collide |
| CpuEngine.RefreshedMeaning | src/physics_engine/cpu_physics_engine/CPUPhysicsEngine.cpp:204-220 | a refreshed wrapper keeps its id, layer and collider flag, mirrors the store when the store holds the whole body, is unchanged otherwise, and refreshing twice is refreshing once |
| CpuEngine.NewWrapperMeaning | src/physics_engine/cpu_physics_engine/CPUPhysicsEngine.cpp:222-247 | a new wrapper carries the id, a collider and layer 0 whatever layer the body was created on, and copies the three components from the store |
| CpuEngine.RefreshAll | src/physics_engine/cpu_physics_engine/CPUPhysicsEngine.cpp:106-109 | refreshing every wrapper keeps the set of wrapped ids |
| CpuEngine.RefreshedSome | src/physics_engine/cpu_physics_engine/CPUPhysicsEngine.cpp:106-109 | refreshing some wrappers keeps the set of wrapped ids |
| CpuEngine.RefreshedSomeStep | src/physics_engine/cpu_physics_engine/CPUPhysicsEngine.cpp:106-109 | one turn of the refresh loop refreshes exactly one more wrapper |
| CpuEngine.RefreshedSomeAll | src/physics_engine/cpu_physics_engine/CPUPhysicsEngine.cpp:106-109 | once the loop has visited every wrapped id, every wrapper is refreshed |
| CpuEngine.RefreshAllKeepsNames | src/physics_engine/cpu_physics_engine/CPUPhysicsEngine.cpp:106-109 | refreshing keeps every wrapper named by its own key |
| CpuEngine.CpuPhysicsEngine.constructor | src/cpu_physics/CPUPhysicsEngine.h:78-88 | nothing is created yet, the capacity is 512, no layers exist, the layer counter is 1 and gravity is (0, -9.81, 0) |
| CpuEngine.CpuPhysicsEngine.Initialize | src/physics_engine/cpu_physics_engine/CPUPhysicsEngine.cpp:12-35 | a fresh empty store, factory and collision system are created, the capacity is recorded, and "Default" is registered under the next layer id with an empty list |
| CpuEngine.CpuPhysicsEngine.CreateParts | src/physics_engine/cpu_physics_engine/CPUPhysicsEngine.cpp:18-28 | the store, factory and collision system share one fresh empty store, with standard gravity |
| CpuEngine.CpuPhysicsEngine.Cleanup | src/physics_engine/cpu_physics_engine/CPUPhysicsEngine.cpp:37-49 | wrappers, parts and layers are dropped; the layer counter is not reset |
| CpuEngine.CpuPhysicsEngine.RefreshCallback | src/physics_engine/cpu_physics_engine/CPUPhysicsEngine.cpp:200-202 | the collision system's layer callback answers from the current registry; nothing else in the collision system changes |
| CpuEngine.CpuPhysicsEngine.CreateRigidBody | src/physics_engine/cpu_physics_engine/CPUPhysicsEngine.cpp:51-71 | 0 before initialize; otherwise nonzero exactly for valid parameters, a rejected call changes nothing, and a created body gets a wrapper on layer 0 mirroring its components; the capacity is never consulted |
| CpuEngine.CpuPhysicsEngine.CreateLegacyWrapper | src/physics_engine/cpu_physics_engine/CPUPhysicsEngine.cpp:222-247 | the wrapper for the id is rebuilt from the store, replacing any earlier one |
| CpuEngine.CpuPhysicsEngine.RemoveRigidBody | src/physics_engine/cpu_physics_engine/CPUPhysicsEngine.cpp:73-83 | false before initialize; otherwise the wrapper is dropped and the answer is true exactly for a complete rigid body, which leaves the store |
| CpuEngine.CpuPhysicsEngine.UpdateLegacyData | src/physics_engine/cpu_physics_engine/CPUPhysicsEngine.cpp:204-220 | the wrapper for the id, if any, is refreshed from the store; all other state is kept |
| CpuEngine.CpuPhysicsEngine.GetRigidBody | src/physics_engine/cpu_physics_engine/CPUPhysicsEngine.cpp:85-95 | nothing exactly when no wrapper exists; otherwise the wrapper after refreshing it from the store |
| CpuEngine.CpuPhysicsEngine.RefreshWrappers | src/physics_engine/cpu_physics_engine/CPUPhysicsEngine.cpp:106-109 | every wrapper is refreshed from the store |
| CpuEngine.CpuPhysicsEngine.UpdatePhysics | src/physics_engine/cpu_physics_engine/CPUPhysicsEngine.cpp:97-110 | nothing before initialize; otherwise one collision update that finds no contact: every body owning a transform, a physics record and a box collider has its record integrated once under the collision system's gravity and is then moved by its new velocity, every other record and transform is kept, entities and colliders stay; then every wrapper is refreshed from the new state |
| CpuEngine.CpuPhysicsEngine.SetGravity | src/physics_engine/cpu_physics_engine/CPUPhysicsEngine.cpp:112-124 | the gravity is recorded and forwarded to the collision system when there is one |
| CpuEngine.CpuPhysicsEngine.CreateLayer | src/physics_engine/cpu_physics_engine/CPUPhysicsEngine.cpp:126-135 | always a fresh id, the old counter, registered under the name with an empty list (so it does not even interact with itself); not idempotent by name |
| CpuEngine.CpuPhysicsEngine.SetLayerInteraction | src/physics_engine/cpu_physics_engine/CPUPhysicsEngine.cpp:137-176 | false with no change unless both layers are registered; otherwise the registry is updated as the interaction rule says |
| CpuEngine.CpuPhysicsEngine.GetLayer | src/physics_engine/cpu_physics_engine/CPUPhysicsEngine.cpp:188-191 | the registered layer, or nothing exactly when the id is unknown |
| CpuEngine.CpuPhysicsEngine.GetRigidBodyCount | src/physics_engine/cpu_physics_engine/CPUPhysicsEngine.cpp:193-198 | 0 before initialize, otherwise the number of complete rigid bodies in the store |
| CpuPhysics.NewBodyMeaning | src/cpu_physics/CPUPhysicsSystem.cpp:42-73 | a new body is at rest with identity rotation and unit scale at the position; it is static exactly when it has no inverse mass, otherwise the inverse mass is the reciprocal of the mass; it falls exactly when not static; it has restitution 0.5, friction 0.3, an enabled collider of the size and the layer |
| CpuPhysics.IntegratedMeaning | src/cpu_physics/CPUPhysicsSystem.cpp:185-207 | static bodies are untouched; otherwise only position and velocity change: gravity is added when the body falls and has inverse mass, the position moves by that velocity times dt, and the velocity is then damped by 0.999 |
| CpuPhysics.UndoDamping | src/cpu_physics/CPUPhysicsSystem.cpp:203-206 | damping by 0.999 is undone by dividing by 0.999 |
| CpuPhysics.IntegrateAll | src/cpu_physics/CPUPhysicsSystem.cpp:102-110 | integrating every body keeps the set of ids |
| CpuPhysics.CheckBoxBoxMeaning | src/cpu_physics/CPUPhysicsSystem.cpp:234-253 | the boxes overlap, inclusively, exactly when no axis has a negative penetration; the test is symmetric and ignores the scales |
| CpuPhysics.ContactAxisMeaning | src/cpu_physics/CPUPhysicsSystem.cpp:264-280 | the contact axis has the least penetration, is the first such axis (X, then Y, then Z), and its penetration is the separation |
| CpuPhysics.ContactNormalMeaning | src/cpu_physics/CPUPhysicsSystem.cpp:271-280 | the normal has length one, is zero off the contact axis and is +1 on it exactly when body 1's coordinate is greater |
| CpuPhysics.OverlapSeparation | src/cpu_physics/CPUPhysicsSystem.cpp:269-272 | overlapping boxes have a non-negative separation |
| CpuPhysics.ResolveFrame | src/cpu_physics/CPUPhysicsSystem.cpp:255-317 | resolution changes only positions and velocities, and nothing at all when neither body has inverse mass |
| CpuPhysics.PortionsSum | src/cpu_physics/CPUPhysicsSystem.cpp:285-286 | the two inverse-mass ratios split the separation into two parts that add up to it |
| CpuPhysics.ResolveAlongSeparates | src/cpu_physics/CPUPhysicsSystem.cpp:288-294 | along a unit normal the two pushes widen the gap by the whole separation |
| CpuPhysics.ResolveSeparates | src/cpu_physics/CPUPhysicsSystem.cpp:282-294 | when either body can move, the gap along the contact normal grows by the full separation, so the boxes end up exactly touching on that axis |
| CpuPhysics.ResolveAlongRestitution | src/cpu_physics/CPUPhysicsSystem.cpp:296-315 | along a unit normal, an approaching or resting normal velocity vn becomes -e·vn with e the lesser restitution; a separating pair keeps its velocities |
| CpuPhysics.ResolveRestitution | src/cpu_physics/CPUPhysicsSystem.cpp:296-315 | the same along the contact normal of two overlapping boxes |
| CpuPhysics.ResolveKeepsImmovable | src/cpu_physics/CPUPhysicsSystem.cpp:283-315 | a body without inverse mass is neither moved nor given velocity |
| CpuPhysics.ResolvePair | src/cpu_physics/CPUPhysicsSystem.cpp:213-229 | one inner-loop step keeps the set of ids |
| CpuPhysics.Sweep | src/cpu_physics/CPUPhysicsSystem.cpp:211-231 | resolving a list of pairs keeps the set of ids |
| CpuPhysics.ResolvePairOnlyMotion | src/cpu_physics/CPUPhysicsSystem.cpp:213-229 | one pair step changes only the motion of movable bodies |
| CpuPhysics.SweepOnlyMotion | src/cpu_physics/CPUPhysicsSystem.cpp:209-232 | resolving every pair of distinct bodies changes only positions and velocities, and never those of a body without inverse mass; ids, layers, colliders, masses and static flags are kept |
| CpuPhysics.DistinctPairs | src/cpu_physics/CPUPhysicsSystem.cpp:211-212 | the nested loop never pairs a body with itself |
| CpuPhysics.UnregisteredLayersNeverCollide | src/cpu_physics/CPUPhysicsSystem.cpp:216-219 | bodies on unregistered layers, in particular the default layer 0, never collide, so the sweep changes nothing |
| CpuPhysics.IntegrateAllOnlyMotion | src/cpu_physics/CPUPhysicsSystem.cpp:185-207 | integration changes only motion, never that of a static body |
| CpuPhysics.OnlyMotionKeepsInvariants | src/cpu_physics/CPUPhysicsSystem.cpp:185-317 | changing only motion keeps every body named by its key and keeps static bodies without inverse mass |
| CpuPhysics.SweepSnoc | src/cpu_physics/CPUPhysicsSystem.cpp:211-231 | a later pair is resolved after the earlier ones, on their result |
| CpuPhysics.IntegratedSome | src/cpu_physics/CPUPhysicsSystem.cpp:104-106 | integrating some bodies keeps the set of ids |
| CpuPhysics.IntegratedSomeStep | src/cpu_physics/CPUPhysicsSystem.cpp:104-106 | one turn of the integration loop integrates exactly one more body |
| CpuPhysics.IntegratedSomeAll | src/cpu_physics/CPUPhysicsSystem.cpp:104-106 | once every body has had its turn, in whatever order, the whole table is integrated |
| CpuPhysics.SweepIsFold | src/cpu_physics/CPUPhysicsSystem.cpp:211-231 | the sweep is the fold of the pair step over the pairs |
| CpuPhysics.CpuPhysicsSystem.constructor | src/cpu_physics/CPUPhysicsSystem.h:89-104 | a new system has no bodies and no layers, capacity 512, both counters at 1 and gravity (0, -9.81, 0) |
| CpuPhysics.CpuPhysicsSystem.Initialize | src/cpu_physics/CPUPhysicsSystem.cpp:12-23 | the capacity is recorded and "Default" is registered under the next layer id, interacting with itself |
| CpuPhysics.CpuPhysicsSystem.Cleanup | src/cpu_physics/CPUPhysicsSystem.cpp:25-32 | no bodies, no layers, both counters back to 1 |
| CpuPhysics.CpuPhysicsSystem.CreateRigidBody | src/cpu_physics/CPUPhysicsSystem.cpp:34-80 | 0 and no change when the table is full; otherwise the old counter, a fresh id, under which the new body is stored, and the counter moves up by one |
| CpuPhysics.CpuPhysicsSystem.RemoveRigidBody | src/cpu_physics/CPUPhysicsSystem.cpp:82-91 | true exactly when the id was stored; it is gone afterwards |
| CpuPhysics.CpuPhysicsSystem.GetRigidBody | src/cpu_physics/CPUPhysicsSystem.cpp:93-100 | the stored body, or nothing exactly for an unknown id |
| CpuPhysics.CpuPhysicsSystem.SetGravity | src/cpu_physics/CPUPhysicsSystem.cpp:112-119 | only the gravity changes |
| CpuPhysics.CpuPhysicsSystem.CreateLayer | src/cpu_physics/CPUPhysicsSystem.cpp:121-133 | always a fresh id, the old counter, registered under the name with a list naming only itself; not idempotent by name |
| CpuPhysics.CpuPhysicsSystem.SetLayerInteraction | src/cpu_physics/CPUPhysicsSystem.cpp:135-164 | false with no change unless both layers are registered; otherwise both lists are updated as the interaction rule says |
| CpuPhysics.CpuPhysicsSystem.GetLayer | src/cpu_physics/CPUPhysicsSystem.cpp:176-183 | the registered layer, or nothing exactly when the id is unknown |
| CpuPhysics.CpuPhysicsSystem.IntegrateBody | src/cpu_physics/CPUPhysicsSystem.cpp:185-207 | one stored body is replaced by its integrated state |
| CpuPhysics.CpuPhysicsSystem.IntegrateBodies | src/cpu_physics/CPUPhysicsSystem.cpp:104-106 | every body is integrated, whatever the table's order |
| CpuPhysics.CpuPhysicsSystem.ResolveAt | src/cpu_physics/CPUPhysicsSystem.cpp:213-229 | one inner-loop step applied to the stored bodies |
| CpuPhysics.CpuPhysicsSystem.SweepRow | src/cpu_physics/CPUPhysicsSystem.cpp:212-230 | one body against every later one, keeping the set of ids |
| CpuPhysics.CpuPhysicsSystem.DetectAndResolveCollisions | src/cpu_physics/CPUPhysicsSystem.cpp:209-232 | every pair of bodies, in table order, resolved one after the other |
| CpuPhysics.CpuPhysicsSystem.UpdatePhysics | src/cpu_physics/CPUPhysicsSystem.cpp:102-110 | every body integrated and then every pair resolved, both in the table's order; only positions and velocities change and static bodies never move |
| EcsContacts.AabbCentredOnPosition | src/physics_engine/cpu_physics_engine/systems/cpu_physics_collision_system.cpp:399-415 | the box of a collider is centred on the entity's position and spans the collider's dimensions times the transform's scale on each axis; the same holds at src/PhysicsEngine/CPUPhysicsEngine/systems/EnhancedCPUPhysicsCollisionSystem.cpp:346-362 |
| EcsContacts.AabbOverlapSymmetric | src/physics_engine/cpu_physics_engine/systems/cpu_physics_collision_system.cpp:417-421 | the inclusive overlap test does not depend on the order of the two boxes; the same holds at src/PhysicsEngine/CPUPhysicsEngine/systems/EnhancedCPUPhysicsCollisionSystem.cpp:364-368 |
| EcsContacts.AabbOverlapReflexive | src/physics_engine/cpu_physics_engine/systems/cpu_physics_collision_system.cpp:417-421 | every box of non-negative extent overlaps itself, even a degenerate one |
| EcsContacts.AabbOverlapIffPenetrations | src/physics_engine/cpu_physics_engine/systems/cpu_physics_collision_system.cpp:417-421 | two boxes overlap exactly when no axis has a negative penetration (sum of half-extents minus centre distance) |
| EcsContacts.CanEntitiesCollide | src/physics_engine/cpu_physics_engine/systems/cpu_physics_collision_system.cpp:390-397 | with no layer callback every pair may collide |
| EcsContacts.CanEntitiesCollideIgnoresEntities | src/physics_engine/cpu_physics_engine/systems/cpu_physics_collision_system.cpp:390-397 | the answer never depends on the entities: it is the callback's answer for layers (0, 0); the same holds at src/PhysicsEngine/CPUPhysicsEngine/systems/EnhancedCPUPhysicsCollisionSystem.cpp:337-344 |
| EcsContacts.Partners | src/physics_engine/cpu_physics_engine/systems/cpu_physics_collision_system.cpp:115-127 | the partner list has at most one entry per contact |
| EcsContacts.CollidingEntities | src/physics_engine/cpu_physics_engine/systems/cpu_physics_collision_system.cpp:115-127 | the loop returns, in contact order, the other entity of every contact naming the id; the same holds at src/PhysicsEngine/CPUPhysicsEngine/systems/EnhancedCPUPhysicsCollisionSystem.cpp:145-157 |
| EcsContacts.EntitiesColliding | src/physics_engine/cpu_physics_engine/systems/cpu_physics_collision_system.cpp:129-137 | the loop answers true exactly when some contact joins the two entities in either order; the same holds at src/PhysicsEngine/CPUPhysicsEngine/systems/EnhancedCPUPhysicsCollisionSystem.cpp:159-167 |
| EcsContacts.PartnersIffJoined | src/physics_engine/cpu_physics_engine/systems/cpu_physics_collision_system.cpp:115-137 | the two queries agree: b is a partner of a exactly when a contact joins them, and joining is symmetric |
| EcsContacts.PartnersOfUnnamed | src/physics_engine/cpu_physics_engine/systems/cpu_physics_collision_system.cpp:115-127 | an id that no contact names has no partners |
| EcsCollision.IntegratedMeaning | src/physics_engine/cpu_physics_engine/systems/cpu_physics_collision_system.cpp:139-168 | a static body is untouched; otherwise gravity times dt is added first, only when gravity is on and the inverse mass is positive, then both velocities are damped by 0.99; mass, restitution and flags never change |
| EcsCollision.KinematicIgnoresGravity | src/physics_engine/cpu_physics_engine/systems/cpu_physics_collision_system.cpp:158-162 | a kinematic body (inverse mass 0, not static) gets no gravity and only slows down by the damping |
| EcsCollision.IntegrateAll | src/physics_engine/cpu_physics_engine/systems/cpu_physics_collision_system.cpp:35-37 | integrating the listed entities keeps the set of physics records |
| EcsCollision.IntegrateAllMeaning | src/physics_engine/cpu_physics_engine/systems/cpu_physics_collision_system.cpp:35-37 | each listed record is integrated exactly once and every other record is untouched |
| EcsCollision.MovedMeaning | src/physics_engine/cpu_physics_engine/systems/cpu_physics_collision_system.cpp:170-184 | only the position of a non-static body changes, by velocity times dt; rotation and scale stay; the same holds at src/PhysicsEngine/CPUPhysicsEngine/systems/EnhancedCPUPhysicsCollisionSystem.cpp:196-209 |
| EcsCollision.MoveAll | src/physics_engine/cpu_physics_engine/systems/cpu_physics_collision_system.cpp:50-52 | moving the listed entities keeps the set of transforms |
| EcsCollision.MoveAllMeaning | src/physics_engine/cpu_physics_engine/systems/cpu_physics_collision_system.cpp:50-52 | each listed body with a physics record moves once; every other transform is untouched |
| EcsCollision.CheckBoxBox | src/physics_engine/cpu_physics_engine/systems/cpu_physics_collision_system.cpp:234-297 | there is a contact exactly when the boxes interpenetrate strictly on every axis, and its depth is then positive |
| EcsCollision.CheckBoxBoxContact | src/physics_engine/cpu_physics_engine/systems/cpu_physics_collision_system.cpp:275-294 | the depth is the least penetration, on the first axis reaching it; the normal is the unit axis vector pointing from B to A; the point is the midpoint of the centres |
| EcsCollision.NarrowStricterThanBroad | src/physics_engine/cpu_physics_engine/systems/cpu_physics_collision_system.cpp:186-297 | every narrow-phase contact passes the broad-phase overlap test, and the overlapping pairs without a contact are exactly the ones that only touch on some axis |
| EcsCollision.NarrowPhase | src/physics_engine/cpu_physics_engine/systems/cpu_physics_collision_system.cpp:214-232 | no contact when a transform or collider is missing or either collider is disabled; a contact names the pair in the given order and has positive depth |
| EcsCollision.Contacts | src/physics_engine/cpu_physics_engine/systems/cpu_physics_collision_system.cpp:81-89 | at most one contact per candidate pair |
| EcsCollision.ContactsMembers | src/physics_engine/cpu_physics_engine/systems/cpu_physics_collision_system.cpp:81-89 | every contact is the narrow-phase result of a candidate pair the layer filter allows, and every such result is recorded |
| EcsCollision.LayerZeroBlocksAll | src/physics_engine/cpu_physics_engine/systems/cpu_physics_collision_system.cpp:83 | a layer callback refusing layer 0 blocks every contact whatever the candidates |
| EcsCollision.BroadPhaseLosesNoContact | src/physics_engine/cpu_physics_engine/systems/cpu_physics_collision_system.cpp:67-90 | with the broad phase on or off the same contacts are found |
| EcsCollision.BroadPhaseCandidates | src/physics_engine/cpu_physics_engine/systems/cpu_physics_collision_system.cpp:186-212 | the broad-phase candidates are exactly the pairs (es[i], es[j]) with i < j whose components exist and whose boxes overlap |
| EcsCollision.Separate | src/physics_engine/cpu_physics_engine/systems/cpu_physics_collision_system.cpp:304-335 | separation keeps the set of transforms |
| EcsCollision.SeparateDisplacement | src/physics_engine/cpu_physics_engine/systems/cpu_physics_collision_system.cpp:314-334 | for a unit normal, separation widens the gap between A and B along the normal by half the depth, split in proportion to the inverse masses; a static body does not move |
| EcsCollision.ApplyImpulse | src/physics_engine/cpu_physics_engine/systems/cpu_physics_collision_system.cpp:369-380 | applying an impulse keeps the set of physics records |
| EcsCollision.ImpulseAsWritten | src/physics_engine/cpu_physics_engine/systems/cpu_physics_collision_system.cpp:337-381 | the code as written reaches a division by zero exactly when approaching bodies have inverse masses summing to 0 |
| EcsCollision.KinematicRestingOnStaticDividesByZero | src/physics_engine/cpu_physics_engine/systems/cpu_physics_collision_system.cpp:366-367 | a kinematic body at rest on a static body reaches that division by zero |
| EcsCollision.Impulse | src/physics_engine/cpu_physics_engine/systems/cpu_physics_collision_system.cpp:337-381 | the guarded impulse keeps the set of physics records |
| EcsCollision.ImpulseAgreesAwayFromZero | src/physics_engine/cpu_physics_engine/systems/cpu_physics_collision_system.cpp:366-367 | the guarded impulse equals the code as written wherever the inverse masses sum to a non-zero number, negative sums included |
| EcsCollision.ImpulseIgnoresSeparating | src/physics_engine/cpu_physics_engine/systems/cpu_physics_collision_system.cpp:357-360 | bodies separating along the normal get no impulse |
| EcsCollision.ImpulseRestitution | src/physics_engine/cpu_physics_engine/systems/cpu_physics_collision_system.cpp:362-380 | for approaching bodies with a unit normal, the relative normal velocity afterwards is minus the smaller restitution times the one before |
| EcsCollision.ImpulseApplies | src/physics_engine/cpu_physics_engine/systems/cpu_physics_collision_system.cpp:362-367 | an impulse that is not skipped has magnitude -(1 + e) times the normal velocity over the summed inverse masses |
| EcsCollision.ApplyImpulseVelocities | src/physics_engine/cpu_physics_engine/systems/cpu_physics_collision_system.cpp:369-380 | A's velocity moves by j times its inverse mass along the normal and B's against it; a static body's not at all |
| EcsCollision.RelativeVelocityAfterImpulse | src/physics_engine/cpu_physics_engine/systems/cpu_physics_collision_system.cpp:362-380 | after the impulse the relative normal velocity is -e times the one before |
| EcsCollision.ImpulseSplits | src/physics_engine/cpu_physics_engine/systems/cpu_physics_collision_system.cpp:366-367 | the two shares of the impulse add up to -(1 + e) times the normal velocity |
| EcsCollision.ResolveAll | src/physics_engine/cpu_physics_engine/systems/cpu_physics_collision_system.cpp:92-98 | resolving the contacts keeps the sets of transforms and physics records |
| EcsCollision.ResolveAllKeepsStatic | src/physics_engine/cpu_physics_engine/systems/cpu_physics_collision_system.cpp:299-381 | resolving contacts never changes a static body's transform or record |
| EcsCollision.IntegrateAllKeepsStatic | src/physics_engine/cpu_physics_engine/systems/cpu_physics_collision_system.cpp:139-143 | integration never changes a static body's record |
| EcsCollision.MoveAllKeepsStatic | src/physics_engine/cpu_physics_engine/systems/cpu_physics_collision_system.cpp:174-176 | moving never changes a static body's transform |
| EcsCollision.StepKeepsStatic | src/physics_engine/cpu_physics_engine/systems/cpu_physics_collision_system.cpp:15-65 | no update changes a static body |
| EcsCollision.StepWithLayerZeroRefused | src/physics_engine/cpu_physics_engine/systems/cpu_physics_collision_system.cpp:39-52 | with a callback refusing layer 0 an update finds no contacts and only integrates and moves the bodies |
| EcsCollision.StepWithLayerZeroRefusedMeaning | src/physics_engine/cpu_physics_engine/systems/cpu_physics_collision_system.cpp:39-52 | with a callback refusing layer 0, each listed record is integrated once and each listed body then moved by its new velocity; every other record and transform is kept |
| EcsCollision.UpdateTransformFromPhysics | src/physics_engine/cpu_physics_engine/systems/cpu_physics_collision_system.cpp:170-184 | one entity's transform becomes its moved transform; nothing else in the store changes |
| EcsCollision.MoveBodies | src/physics_engine/cpu_physics_engine/systems/cpu_physics_collision_system.cpp:50-52 | every listed entity is moved in order; nothing else in the store changes |
| EcsCollision.CpuPhysicsCollisionSystem.constructor | src/PhysicsEngine/CPUPhysicsEngine/systems/CpuPhysicsCollisionSystem.h:64-77 | starts with gravity (0, -9.81, 0), broad phase and collision response on, no layer callback and no contacts |
| EcsCollision.CpuPhysicsCollisionSystem.SetLayerInteractionCallback | src/physics_engine/cpu_physics_engine/systems/cpu_physics_collision_system.cpp:100-103 | installs the callback and changes nothing else |
| EcsCollision.CpuPhysicsCollisionSystem.SetGravity | src/physics_engine/cpu_physics_engine/systems/cpu_physics_collision_system.cpp:105-113 | sets the gravity and changes nothing else |
| EcsCollision.CpuPhysicsCollisionSystem.SetBroadPhaseEnabled | src/PhysicsEngine/CPUPhysicsEngine/systems/CpuPhysicsCollisionSystem.h:40 | sets the broad-phase flag and changes nothing else |
| EcsCollision.CpuPhysicsCollisionSystem.SetCollisionResponseEnabled | src/PhysicsEngine/CPUPhysicsEngine/systems/CpuPhysicsCollisionSystem.h:41 | sets the collision-response flag and changes nothing else |
| EcsCollision.CpuPhysicsCollisionSystem.GetCollidingEntities | src/physics_engine/cpu_physics_engine/systems/cpu_physics_collision_system.cpp:115-127 | returns the partners of the entity in the contacts of the last update |
| EcsCollision.CpuPhysicsCollisionSystem.AreEntitiesColliding | src/physics_engine/cpu_physics_engine/systems/cpu_physics_collision_system.cpp:129-137 | true exactly when a contact of the last update joins the two |
| EcsCollision.CpuPhysicsCollisionSystem.IntegratePhysics | src/physics_engine/cpu_physics_engine/systems/cpu_physics_collision_system.cpp:139-168 | the entity's physics record is integrated once; transforms, colliders and entities stay |
| EcsCollision.CpuPhysicsCollisionSystem.IntegrateBodies | src/physics_engine/cpu_physics_engine/systems/cpu_physics_collision_system.cpp:35-37 | every listed entity is integrated in order; nothing else in the store changes |
| EcsCollision.CpuPhysicsCollisionSystem.BroadPhaseDetection | src/physics_engine/cpu_physics_engine/systems/cpu_physics_collision_system.cpp:186-212 | returns exactly the overlapping i < j pairs |
| EcsCollision.CpuPhysicsCollisionSystem.DetectCollisions | src/physics_engine/cpu_physics_engine/systems/cpu_physics_collision_system.cpp:67-90 | appends the contacts of the candidate pairs, chosen by the broad phase or all i < j pairs by the flag |
| EcsCollision.CpuPhysicsCollisionSystem.NarrowPhaseAll | src/physics_engine/cpu_physics_engine/systems/cpu_physics_collision_system.cpp:81-89 | returns the narrow-phase contacts of the pairs the layer filter allows, in order |
| EcsCollision.CpuPhysicsCollisionSystem.SeparateEntities | src/physics_engine/cpu_physics_engine/systems/cpu_physics_collision_system.cpp:304-335 | the store's transforms become the separated ones; physics records stay |
| EcsCollision.CpuPhysicsCollisionSystem.ApplyCollisionImpulse | src/physics_engine/cpu_physics_engine/systems/cpu_physics_collision_system.cpp:337-381 | the store's physics records get the impulse; it is skipped only where the code as written would divide by a zero sum of inverse masses, and any other sum, negative ones included, is divided by |
| EcsCollision.CpuPhysicsCollisionSystem.ResolveCollision | src/physics_engine/cpu_physics_engine/systems/cpu_physics_collision_system.cpp:299-302 | separation, then the impulse |
| EcsCollision.CpuPhysicsCollisionSystem.ResolveCollisions | src/physics_engine/cpu_physics_engine/systems/cpu_physics_collision_system.cpp:92-98 | every active contact is resolved in order when collision response is on; otherwise nothing changes |
| EcsCollision.CpuPhysicsCollisionSystem.PhysicsEntities | src/physics_engine/cpu_physics_engine/systems/cpu_physics_collision_system.cpp:18-29 | lists, without repeats, exactly the entities owning a transform, a physics record and a box collider |
| EcsCollision.CpuPhysicsCollisionSystem.Update | src/physics_engine/cpu_physics_engine/systems/cpu_physics_collision_system.cpp:15-65 | an update integrates, detects, resolves and moves exactly as one step of the model, records the contacts and sets the collision count to their number |
| EnhancedCollision.IntegratedMeaning | src/PhysicsEngine/CPUPhysicsEngine/systems/EnhancedCPUPhysicsCollisionSystem.cpp:170-185 | only the linear velocity of a non-static body with gravity on changes, by exactly gravity times dt; nothing is damped |
| EnhancedCollision.DampingIsTheDifference | src/PhysicsEngine/CPUPhysicsEngine/systems/EnhancedCPUPhysicsCollisionSystem.cpp:170-185 | for a moving body this integration differs from the ECS collision system's only by the 0.99 damping |
| EnhancedCollision.IntegrateAll | src/PhysicsEngine/CPUPhysicsEngine/systems/EnhancedCPUPhysicsCollisionSystem.cpp:46-48 | integrating the listed entities keeps the set of physics records |
| EnhancedCollision.IntegrateAllMeaning | src/PhysicsEngine/CPUPhysicsEngine/systems/EnhancedCPUPhysicsCollisionSystem.cpp:46-48 | each listed entity that has a transform is integrated once; every other record is untouched |
| EnhancedCollision.GravityAppliedIsVerticalIntegration | src/PhysicsEngine/CPUPhysicsEngine/systems/EnhancedCPUPhysicsCollisionSystem.cpp:187-194 | applying gravity is integration with only gravity's vertical part, so the two agree for a vertical gravity |
| EnhancedCollision.CheckBoxBoxIffTouching | src/PhysicsEngine/CPUPhysicsEngine/systems/EnhancedCPUPhysicsCollisionSystem.cpp:239-263 | there is a contact exactly when the boxes overlap or touch on every axis |
| EnhancedCollision.CheckBoxBoxFixedContact | src/PhysicsEngine/CPUPhysicsEngine/systems/EnhancedCPUPhysicsCollisionSystem.cpp:251-260 | a contact names entity 0 twice, has the fixed depth 0.1 and unit normal (1, 0, 0), and lies midway between the centres |
| EnhancedCollision.CheckBoxBoxSymmetric | src/PhysicsEngine/CPUPhysicsEngine/systems/EnhancedCPUPhysicsCollisionSystem.cpp:239-263 | the result does not depend on the order of the boxes |
| EnhancedCollision.WeakerThanEcsNarrowPhase | src/PhysicsEngine/CPUPhysicsEngine/systems/EnhancedCPUPhysicsCollisionSystem.cpp:239-263 | every pair the ECS collision system reports is reported here too, and the extra ones are exactly the boxes that only touch |
| EnhancedCollision.NarrowPhaseIgnoresEnabled | src/PhysicsEngine/CPUPhysicsEngine/systems/EnhancedCPUPhysicsCollisionSystem.cpp:224-237 | enabling or disabling a collider changes no narrow-phase result |
| EnhancedCollision.Contacts | src/PhysicsEngine/CPUPhysicsEngine/systems/EnhancedCPUPhysicsCollisionSystem.cpp:92-105 | at most one contact per candidate pair |
| EnhancedCollision.ContactsMembers | src/PhysicsEngine/CPUPhysicsEngine/systems/EnhancedCPUPhysicsCollisionSystem.cpp:92-105 | every contact comes from a candidate pair the layer filter allows and every such result is recorded; all name entity 0 and carry the fixed depth and normal |
| EnhancedCollision.ZeroNamedContactsJoinNoEntity | src/PhysicsEngine/CPUPhysicsEngine/systems/EnhancedCPUPhysicsCollisionSystem.cpp:145-167 | with contacts naming entity 0, no real entity has a partner or is joined with anything |
| EnhancedCollision.AllCandidatesMeaning | src/PhysicsEngine/CPUPhysicsEngine/systems/EnhancedCPUPhysicsCollisionSystem.cpp:211-222 | the candidates are exactly the position pairs i < j, n(n - 1)/2 of them |
| EnhancedCollision.Separate | src/PhysicsEngine/CPUPhysicsEngine/systems/EnhancedCPUPhysicsCollisionSystem.cpp:271-289 | separation keeps the set of transforms |
| EnhancedCollision.SeparateMeaning | src/PhysicsEngine/CPUPhysicsEngine/systems/EnhancedCPUPhysicsCollisionSystem.cpp:271-289 | the gap from A to B grows by the normal times the full depth while the midpoint stays, whatever the masses; only those two positions change |
| EnhancedCollision.Impulse | src/PhysicsEngine/CPUPhysicsEngine/systems/EnhancedCPUPhysicsCollisionSystem.cpp:291-309 | the impulse keeps the set of physics records |
| EnhancedCollision.ImpulseMeaning | src/PhysicsEngine/CPUPhysicsEngine/systems/EnhancedCPUPhysicsCollisionSystem.cpp:291-309 | the velocity of B relative to A grows by the whole normal while the sum of the velocities stays, whatever the masses and even for static bodies |
| EnhancedCollision.ResolveAll | src/PhysicsEngine/CPUPhysicsEngine/systems/EnhancedCPUPhysicsCollisionSystem.cpp:108-116 | resolving keeps the sets of transforms and records |
| EnhancedCollision.ResolveSelfContact | src/PhysicsEngine/CPUPhysicsEngine/systems/EnhancedCPUPhysicsCollisionSystem.cpp:265-309 | a contact of a body with itself changes nothing |
| EnhancedCollision.ResolveZeroNamedChangesNothing | src/PhysicsEngine/CPUPhysicsEngine/systems/EnhancedCPUPhysicsCollisionSystem.cpp:108-116 | resolving contacts that all name entity 0 twice changes nothing |
| EnhancedCollision.StepNeverResolves | src/PhysicsEngine/CPUPhysicsEngine/systems/EnhancedCPUPhysicsCollisionSystem.cpp:38-73 | an update only integrates and moves the bodies, and every contact it records names entity 0 |
| EnhancedCollision.CalculateDistanceMeaning | src/PhysicsEngine/CPUPhysicsEngine/systems/EnhancedCPUPhysicsCollisionSystem.cpp:311-316 | the distance is non-negative, squares to the squared difference of the positions and is symmetric |
| EnhancedCollision.CollisionNormalUnit | src/PhysicsEngine/CPUPhysicsEngine/systems/EnhancedCPUPhysicsCollisionSystem.cpp:318-335 | for distinct centres the normal has unit length |
| EnhancedCollision.CollisionNormalCoincident | src/PhysicsEngine/CPUPhysicsEngine/systems/EnhancedCPUPhysicsCollisionSystem.cpp:328-334 | for coincident centres the normal stays the zero vector |
| EnhancedCollision.RequiredMeansOwnsAll | src/PhysicsEngine/CPUPhysicsEngine/systems/EnhancedCPUPhysicsCollisionSystem.cpp:26-32 | the required components mean ownership of a transform, a physics record and a box collider; the same holds at src/PhysicsEngine/CPUPhysicsEngine/systems/BaseCPUPhysicsSystem.cpp:165-195 |
| EnhancedCollision.EnhancedCollisionSystem.constructor | src/PhysicsEngine/CPUPhysicsEngine/systems/EnhancedCPUPhysicsCollisionSystem.h:72-83 | starts as an enabled, uninitialized base system with no filter, gravity (0, -9.81, 0), broad phase and response on, no callback and no contacts |
| EnhancedCollision.EnhancedCollisionSystem.SetLayerInteractionCallback | src/PhysicsEngine/CPUPhysicsEngine/systems/EnhancedCPUPhysicsCollisionSystem.cpp:118-121 | installs the callback and changes nothing else |
| EnhancedCollision.EnhancedCollisionSystem.SetGravity | src/PhysicsEngine/CPUPhysicsEngine/systems/EnhancedCPUPhysicsCollisionSystem.cpp:123-131 | sets the gravity and changes nothing else |
| EnhancedCollision.EnhancedCollisionSystem.SetBroadPhaseEnabled | src/PhysicsEngine/CPUPhysicsEngine/systems/EnhancedCPUPhysicsCollisionSystem.cpp:133-135 | sets the broad-phase flag and changes nothing else |
| EnhancedCollision.EnhancedCollisionSystem.SetCollisionResponseEnabled | src/PhysicsEngine/CPUPhysicsEngine/systems/EnhancedCPUPhysicsCollisionSystem.cpp:137-139 | sets the response flag and changes nothing else |
| EnhancedCollision.EnhancedCollisionSystem.GetCollidingEntities | src/PhysicsEngine/CPUPhysicsEngine/systems/EnhancedCPUPhysicsCollisionSystem.cpp:145-157 | the partners in the last update's contacts, which is empty for every real entity |
| EnhancedCollision.EnhancedCollisionSystem.AreEntitiesColliding | src/PhysicsEngine/CPUPhysicsEngine/systems/EnhancedCPUPhysicsCollisionSystem.cpp:159-167 | whether a contact joins the two, which is never true when a real entity is asked about |
| EnhancedCollision.EnhancedCollisionSystem.IntegratePhysics | src/PhysicsEngine/CPUPhysicsEngine/systems/EnhancedCPUPhysicsCollisionSystem.cpp:170-185 | the entity's record is integrated once; nothing else in the store changes |
| EnhancedCollision.EnhancedCollisionSystem.ApplyGravity | src/PhysicsEngine/CPUPhysicsEngine/systems/EnhancedCPUPhysicsCollisionSystem.cpp:187-194 | an existing record gains only vertical gravity times dt; nothing else changes |
| EnhancedCollision.EnhancedCollisionSystem.IntegrateBodies | src/PhysicsEngine/CPUPhysicsEngine/systems/EnhancedCPUPhysicsCollisionSystem.cpp:46-48 | every listed entity is integrated in order |
| EnhancedCollision.EnhancedCollisionSystem.BroadPhaseDetection | src/PhysicsEngine/CPUPhysicsEngine/systems/EnhancedCPUPhysicsCollisionSystem.cpp:211-222 | returns all i < j pairs |
| EnhancedCollision.EnhancedCollisionSystem.NarrowPhaseAll | src/PhysicsEngine/CPUPhysicsEngine/systems/EnhancedCPUPhysicsCollisionSystem.cpp:92-105 | returns the narrow-phase contacts of the pairs the layer filter allows, in order |
| EnhancedCollision.EnhancedCollisionSystem.DetectCollisions | src/PhysicsEngine/CPUPhysicsEngine/systems/EnhancedCPUPhysicsCollisionSystem.cpp:83-106 | nothing with the broad phase off or fewer than two entities; otherwise the contacts of all pairs are appended |
| EnhancedCollision.EnhancedCollisionSystem.SeparateEntities | src/PhysicsEngine/CPUPhysicsEngine/systems/EnhancedCPUPhysicsCollisionSystem.cpp:271-289 | the store's transforms become the separated ones |
| EnhancedCollision.EnhancedCollisionSystem.ApplyCollisionImpulse | src/PhysicsEngine/CPUPhysicsEngine/systems/EnhancedCPUPhysicsCollisionSystem.cpp:291-309 | the store's physics records get the fixed impulse |
| EnhancedCollision.EnhancedCollisionSystem.ResolveCollision | src/PhysicsEngine/CPUPhysicsEngine/systems/EnhancedCPUPhysicsCollisionSystem.cpp:265-269 | separation, then the impulse |
| EnhancedCollision.EnhancedCollisionSystem.ResolveCollisions | src/PhysicsEngine/CPUPhysicsEngine/systems/EnhancedCPUPhysicsCollisionSystem.cpp:108-116 | nothing with response off, otherwise every active contact in order |
| EnhancedCollision.EnhancedCollisionSystem.UpdateInternal | src/PhysicsEngine/CPUPhysicsEngine/systems/EnhancedCPUPhysicsCollisionSystem.cpp:38-73 | the bodies are the entities with the required components in store order; store and contacts become one step of the model, and the count their number |
| EnhancedCollision.EnhancedCollisionSystem.Update | src/PhysicsEngine/CPUPhysicsEngine/systems/BaseCPUPhysicsSystem.cpp:44-58 | the update body runs only when the system is initialized and enabled; otherwise nothing changes |
| LayerMasks.HasReadsBit | src/managers/physicsmanager/LayerSystem.cpp:103-109 | testing a mask against layer l reads exactly bit l of the 64-bit mask |
| LayerMasks.HasBit | src/managers/physicsmanager/LayerSystem.cpp:96 | the mask 1 << l holds layer l and no other |
| LayerMasks.HasNoneAll | src/managers/physicsmanager/workers/PhysicsLayerWorker.cpp:114-116 | the zero mask holds no layer and the all-ones mask every layer |
| LayerMasks.HasWith | src/managers/physicsmanager/LayerSystem.cpp:75-76 | or-ing in bit b adds exactly layer b |
| LayerMasks.HasWithout | src/managers/physicsmanager/LayerSystem.cpp:78-79 | and-ing with the complement of bit b removes exactly layer b |
| LayerMasks.ToggledMeaning | src/managers/physicsmanager/LayerSystem.cpp:74-80 | setting or clearing bit b of a row changes exactly whether the row holds b |
| LayerMasks.CombineMeaning | src/managers/physicsmanager/LayerSystem.cpp:99-101 | a combined mask holds exactly the layers either mask holds |
| LayerMasks.SetBit | src/managers/physicsmanager/LayerSystem.cpp:74-80 | setting one bit keeps the matrix at 64 rows |
| LayerMasks.SetBitMeaning | src/managers/physicsmanager/LayerSystem.cpp:74-80 | setting one bit changes exactly that entry of the matrix |
| LayerMasks.WithInteraction | src/managers/physicsmanager/LayerSystem.cpp:74-80 | setting a pair keeps the matrix at 64 rows |
| LayerMasks.WithInteractionMeaning | src/managers/physicsmanager/LayerSystem.cpp:74-80 | the pair is set in both directions to the requested value and every other entry stays; the same holds at src/managers/physicsmanager/workers/PhysicsLayerWorker.cpp:72-78 |
| LayerMasks.WithInteractionKeepsSymmetric | src/managers/physicsmanager/LayerSystem.cpp:69-81 | setting a pair keeps the interaction matrix symmetric |
| LayerMasks.Uniform | src/managers/physicsmanager/workers/PhysicsLayerWorker.cpp:114-116 | the fill loop gives every row the same mask |
| LayerMasks.UniformMeaning | src/managers/physicsmanager/workers/PhysicsLayerWorker.cpp:5-8 | in the all-ones matrix every pair interacts, in the zeroed one none, and both are symmetric |
| LayerMasks.LayerByName | src/managers/physicsmanager/LayerSystem.cpp:54-57 | an unknown name gives the invalid layer id 0 |
| LayerMasks.LayerName | src/managers/physicsmanager/LayerSystem.cpp:59-62 | an unknown id gives the empty name |
| LayerMasks.LookupRoundTrip | src/managers/physicsmanager/LayerSystem.cpp:54-67 | a registered name looked up and back gives the name again and a valid layer; the invalid id has no name; the same holds at src/managers/physicsmanager/workers/PhysicsLayerWorker.cpp:59-62 |
| LayerMasks.CreateLayerMask | src/managers/physicsmanager/LayerSystem.cpp:91-97 | an invalid layer gives the mask 0 |
| LayerMasks.MaskMeaning | src/managers/physicsmanager/LayerSystem.cpp:91-109 | a layer's mask tests true on that layer only, and a combined mask where either mask does; the same holds at src/managers/physicsmanager/workers/PhysicsLayerWorker.cpp:101-106 |
| LayerMasks.RegisterKeepsNamesValid | src/managers/physicsmanager/LayerSystem.cpp:42-44 | registering a fresh name under the next id keeps the two name tables inverse |
| LayerMasks.InverseTablesSameSize | src/managers/physicsmanager/LayerSystem.cpp:120-122 | inverse name tables have the same size, so the layer count is also the number of names |
| LayerRegistry.DefaultOnly | src/managers/physicsmanager/LayerSystem.cpp:10-24 | the fresh matrix has 64 rows |
| LayerRegistry.DefaultOnlyMeaning | src/managers/physicsmanager/LayerSystem.cpp:10-24 | in the fresh matrix exactly the pair (Default, Default) interacts |
| LayerRegistry.WithNewLayer | src/managers/physicsmanager/LayerSystem.cpp:47-49 | the three calls for a new layer keep the matrix at 64 rows |
| LayerRegistry.WithNewLayerMeaning | src/managers/physicsmanager/LayerSystem.cpp:47-49 | a new layer gains exactly the pairs with itself and with Default, in both directions |
| LayerRegistry.InteractionKeepsOnlyRegistered | src/managers/physicsmanager/LayerSystem.cpp:69-81 | setting a pair of registered layers keeps every set bit on registered layers |
| LayerRegistry.OnlyRegisteredGrow | src/managers/physicsmanager/LayerSystem.cpp:42-44 | registering more layers keeps every set bit on a registered layer |
| LayerRegistry.NewLayerRow | src/managers/physicsmanager/LayerSystem.cpp:42-49 | a newly created layer interacts with exactly itself and Default, and Default with it |
| LayerRegistry.LayerSystem.constructor | src/managers/physicsmanager/LayerSystem.cpp:10-24 | only Default is registered, interacting only with itself, and the next id is 2 |
| LayerRegistry.LayerSystem.FreshIsValid | src/managers/physicsmanager/LayerSystem.cpp:10-24 | the fresh registry satisfies the invariant |
| LayerRegistry.LayerSystem.Reset | src/managers/physicsmanager/LayerSystem.cpp:111-118 | back to the state the constructor builds |
| LayerRegistry.LayerSystem.CanLayersInteractSymmetric | src/managers/physicsmanager/LayerSystem.cpp:83-89 | interaction is symmetric and only valid layers interact |
| LayerRegistry.LayerSystem.CreateLayer | src/managers/physicsmanager/LayerSystem.cpp:26-52 | an empty name throws; a known name gives its id; past layer 63 it throws; otherwise the next id is registered and interacts with itself and Default |
| LayerRegistry.LayerSystem.GetLayerByName | src/managers/physicsmanager/LayerSystem.cpp:54-57 | the registered id, or 0 |
| LayerRegistry.LayerSystem.GetLayerName | src/managers/physicsmanager/LayerSystem.cpp:59-62 | the registered name, or the empty string |
| LayerRegistry.LayerSystem.SetLayerInteraction | src/managers/physicsmanager/LayerSystem.cpp:69-81 | invalid layers throw and change nothing; otherwise exactly the pair is set in both directions |
| LayerRegistry.LayerSystem.CreateLayerMask | src/managers/physicsmanager/LayerSystem.cpp:91-97 | 0 for an invalid layer; otherwise a mask that tests true on that layer only |
| LayerRegistry.LayerSystem.CombineLayerMasks | src/managers/physicsmanager/LayerSystem.cpp:99-101 | tests true wherever either mask does |
| LayerRegistry.LayerSystem.GetLayerCount | src/managers/physicsmanager/LayerSystem.cpp:120-122 | the number of registered layers, equal to the number of names and at least 1 |
| PhysicsLayers.FillMatrix | src/managers/physicsmanager/workers/PhysicsLayerWorker.cpp:114-116 | the loop sets every row to the given mask |
| PhysicsLayers.PhysicsLayerWorker.constructor | src/managers/physicsmanager/workers/PhysicsLayerWorker.cpp:4-9 | no layer registered, next id 2, every pair allowed |
| PhysicsLayers.PhysicsLayerWorker.Reset | src/managers/physicsmanager/workers/PhysicsLayerWorker.cpp:108-117 | no layer registered, next id 2, every pair allowed |
| PhysicsLayers.PhysicsLayerWorker.Initialize | src/managers/physicsmanager/workers/PhysicsLayerWorker.cpp:11-15 | reset, then Default registered under id 1; always succeeds; the registration itself is initializeDefaultLayers (lines 21-24) |
| PhysicsLayers.PhysicsLayerWorker.Cleanup | src/managers/physicsmanager/workers/PhysicsLayerWorker.cpp:17-19 | the same state as a reset |
| PhysicsLayers.PhysicsLayerWorker.CanLayersInteractMeaning | src/managers/physicsmanager/workers/PhysicsLayerWorker.cpp:81-88 | interaction is symmetric, only valid layers interact, and after a reset every valid pair does |
| PhysicsLayers.PhysicsLayerWorker.CreateLayer | src/managers/physicsmanager/workers/PhysicsLayerWorker.cpp:26-47 | as in the layer system, except that the matrix is left as it is |
| PhysicsLayers.PhysicsLayerWorker.GetLayerByName | src/managers/physicsmanager/workers/PhysicsLayerWorker.cpp:49-52 | the registered id, or 0 |
| PhysicsLayers.PhysicsLayerWorker.GetLayerName | src/managers/physicsmanager/workers/PhysicsLayerWorker.cpp:54-57 | the registered name, or the empty string |
| PhysicsLayers.PhysicsLayerWorker.SetLayerInteraction | src/managers/physicsmanager/workers/PhysicsLayerWorker.cpp:64-79 | a call naming an invalid layer does nothing; otherwise exactly the pair is set in both directions |
| PhysicsLayers.PhysicsLayerWorker.CreateLayerMask | src/managers/physicsmanager/workers/PhysicsLayerWorker.cpp:90-95 | 0 for an invalid layer; otherwise a mask that tests true on that layer only |
| PhysicsLayers.PhysicsLayerWorker.CombineLayerMasks | src/managers/physicsmanager/workers/PhysicsLayerWorker.cpp:97-99 | tests true wherever either mask does |
| PhysicsLayers.PhysicsLayerWorker.GetLayerCount | src/managers/physicsmanager/workers/PhysicsLayerWorker.cpp:119-121 | the number of names, 0 before initialization and after cleanup |
| RigidBodies.ZeroBody | src/rigidbody/RigidBodySystem.cpp:100 | a zero-initialised body has shape code 0 (sphere), is not static and has no mass |
| RigidBodies.MomentSign | src/rigidbody/RigidBodySystem.cpp:204 | a sphere moment of a positive mass is non-negative and zero exactly for a zero radius |
| RigidBodies.BoxMomentSign | src/rigidbody/RigidBodySystem.cpp:221-224 | a box moment of a positive mass is non-negative and zero exactly when both sides across the axis are zero |
| RigidBodies.FromMomentsInverse | src/rigidbody/RigidBodySystem.cpp:226-228 | each stored inverse moment times its moment is 1, and 0 is stored for a zero moment |
| RigidBodies.SphereInertiaMeaning | src/rigidbody/RigidBodySystem.cpp:197-212 | a massless body gets no inertia; otherwise the same moment 2/5 m r² on every axis, positive unless the radius is 0, with its reciprocal as inverse; the same holds at src/managers/physicsmanager/rigidbodies/RigidBodyFactory.cpp:132-150 |
| RigidBodies.BoxInertiaMeaning | src/rigidbody/RigidBodySystem.cpp:214-229 | a massless body gets no inertia; otherwise the moments m/12 (b² + c²) per axis, non-negative, zero only when both other sides are 0, with reciprocals as inverses; the same holds at src/managers/physicsmanager/rigidbodies/RigidBodyFactory.cpp:152-173 |
| RigidBodies.CubeInertiaIsUniform | src/rigidbody/RigidBodySystem.cpp:221-224 | a cube has the same moment about every axis |
| RigidBodies.SphereInertiaAsWrittenAgrees | src/rigidbody/RigidBodySystem.cpp:204-211 | the routine as written divides by zero exactly for a positive mass and a zero radius, and agrees with the guarded one elsewhere |
| RigidBodies.BoxInertiaAsWrittenAgrees | src/rigidbody/RigidBodySystem.cpp:221-228 | the routine as written divides by zero exactly for a positive mass and two zero sides, and agrees with the guarded one elsewhere |
| RigidBodies.ZeroRadiusSphereDividesByZero | src/rigidbody/RigidBodySystem.cpp:204-211 | a sphere of radius 0 and mass 1 reaches 1 / 0; the same holds at src/managers/physicsmanager/rigidbodies/RigidBodyFactory.cpp:143-149 |
| RigidBodies.FlatBoxDividesByZero | src/rigidbody/RigidBodySystem.cpp:221-228 | a 1 × 0 × 0 box of mass 1 reaches 1 / 0 about the width axis; the same holds at src/managers/physicsmanager/rigidbodies/RigidBodyFactory.cpp:163-172 |
| RigidBodies.InverseMassRule | src/rigidbody/RigidBodySystem.cpp:115 | the inverse mass is the reciprocal of a positive mass and 0 otherwise |
| RigidBodies.SphereBody | src/rigidbody/RigidBodySystem.cpp:99-128 | a dynamic sphere at the centre with identity rotation, the mass rule, the radius in the first shape slot and sphere inertia; the inertia and its inverse equal those of the unguarded routine (lines 204-211) wherever it is defined, and are 0 where it divides by zero (see "## Left out") |
| RigidBodies.BoxBody | src/rigidbody/RigidBodySystem.cpp:130-161 | a dynamic box storing the half-extents, with box inertia from the full sides; the inertia and its inverse equal those of the unguarded routine (lines 221-228) wherever it is defined, and the inverse is 0 on an axis whose moment is 0 (see "## Left out") |
| RigidBodies.BuiltBodiesKeepMassRule | src/rigidbody/RigidBodySystem.cpp:114-115 | every sphere and box built keeps the mass rule, and a massless one has no inertia |
| RigidBodyFactories.RigidBodyFactory.constructor | src/managers/physicsmanager/rigidbodies/RigidBodyFactory.h:47-48 | the default material is restitution 0.3 and friction 0.7 |
| RigidBodyFactories.RigidBodyFactory.SetDefaultMaterial | src/managers/physicsmanager/rigidbodies/RigidBodyFactory.cpp:122-130 | the material set is the one read back |
| RigidBodyFactories.RigidBodyFactory.CreateSphere | src/managers/physicsmanager/rigidbodies/RigidBodyFactory.cpp:10-40 | a dynamic sphere of the given radius, mass and layer, at the given point, with the default material; applyDefaultMaterial (lines 175-178) copies the stored default into it; the inertia is the unguarded routine's (lines 143-149) wherever it is defined, and 0 where it divides by zero (see "## Left out") |
| RigidBodyFactories.RigidBodyFactory.CreateBox | src/managers/physicsmanager/rigidbodies/RigidBodyFactory.cpp:42-74 | a dynamic box storing half-extents, with box inertia and the default material; the inverse inertia is the unguarded routine's (lines 163-172) wherever it is defined, and 0 on an axis whose moment is 0 (see "## Left out") |
| RigidBodyFactories.RigidBodyFactory.CreateStaticPlane | src/managers/physicsmanager/rigidbodies/RigidBodyFactory.cpp:76-114 | a static massless plane with shape PLANE, data (0, 1, 0, y) and centre (0, y, 0), without inertia |
| RigidBodyFactories.RigidBodyFactory.CreateCustomRigidBody | src/managers/physicsmanager/rigidbodies/RigidBodyFactory.cpp:116-120 | the template moved to the layer, with nothing else changed |
| RigidBodyFactories.RigidBodyFactory.BuiltBodiesObeyMassRule | src/managers/physicsmanager/rigidbodies/RigidBodyFactory.cpp:19-20 | every body the factory builds obeys the inverse-mass rule, and a massless one has no inverse inertia |
| RigidBodyStore.SlotLookup | src/rigidbody/RigidBodySystem.cpp:69-74 | a lookup finds the slot exactly for ids below the slot count |
| RigidBodyStore.LiveCount | src/rigidbody/RigidBodySystem.cpp:82-85 | the count of slots minus free ids, wrapped modulo 2^32 as the unsigned subtraction does |
| RigidBodyStore.RigidBodySystem.constructor | src/rigidbody/RigidBodySystem.cpp:9-17 | no capacity, next id 0, gravity (0, -9.81, 0), a 0.016 step and count 0 |
| RigidBodyStore.RigidBodySystem.Initialize | src/rigidbody/RigidBodySystem.cpp:23-29 | sets the capacity and always succeeds |
| RigidBodyStore.RigidBodySystem.Cleanup | src/rigidbody/RigidBodySystem.cpp:31-34 | drops all slots and free ids but keeps the next id, so ids match slots again only if it was 0 |
| RigidBodyStore.RigidBodySystem.CreateRigidBody | src/rigidbody/RigidBodySystem.cpp:36-53 | a full store answers UINT32_MAX; otherwise the last freed id is reused and its slot overwritten, or the body is appended under the next id |
| RigidBodyStore.RigidBodySystem.RemoveRigidBody | src/rigidbody/RigidBodySystem.cpp:55-67 | false past the last slot; otherwise the slot is zeroed and its id stacked, with no check for a double removal |
| RigidBodyStore.RigidBodySystem.GetRigidBody | src/rigidbody/RigidBodySystem.cpp:69-74 | the slot, or null exactly when the id is past the last slot |
| RigidBodyStore.RigidBodySystem.SetGravity | src/rigidbody/RigidBodySystem.cpp:76-80 | sets the gravity and nothing else |
| RigidBodyStore.RigidBodySystem.UpdateUniformBuffer | src/rigidbody/RigidBodySystem.cpp:82-85 | records the step and the wrapped live count |
| RigidBodyStore.RigidBodySystem.GetRigidBodyCount | src/rigidbody/RigidBodySystem.h:28 | the number of slots, freed ones included |
| RigidBodyStore.RigidBodySystem.CreateSphere | src/rigidbody/RigidBodySystem.cpp:99-128 | `createRigidBody` on `SphereBody` with material 0.6 / 0.3 on layer 0, all three cases: a full store answers UINT32_MAX and changes nothing; otherwise the last freed id is reused and its slot overwritten, or the body is appended under the next id; the other fields are kept (the guarded inertia, see "## Left out") |
| RigidBodyStore.RigidBodySystem.CreateBox | src/rigidbody/RigidBodySystem.cpp:130-161 | `createRigidBody` on `BoxBody` with material 0.4 / 0.5 on layer 0, in the same three cases: full store, reused freed id, or appended under the next id (the guarded inertia, see "## Left out") |
| RigidBodyStore.RigidBodySystem.CreateStaticPlane | src/rigidbody/RigidBodySystem.cpp:163-195 | `createRigidBody` on the body the code builds (static and massless with material 0.2 / 0.8, its shape code left at 0, a sphere, with radius 0), in the same three cases: full store, reused freed id, or appended under the next id |
| RigidBodyStore.StaticPlaneAsBuilt | src/rigidbody/RigidBodySystem.cpp:163-195 | the body as built is static and massless, but its shape code is never set, so it stays a sphere of radius 0 |
| RigidBodyStore.StaticPlane | src/rigidbody/RigidBodySystem.cpp:163-195 | the corrected plane differs from the built body only in its PLANE shape code and plane data |
| RigidBodyStore.StaticPlaneMatchesFactory | src/managers/physicsmanager/rigidbodies/RigidBodyFactory.cpp:76-114 | the corrected plane is the factory's plane on layer 0 with material 0.2 / 0.8 |
| RigidBodyStore.DoubleRemoveHandsOutTwice | src/rigidbody/RigidBodySystem.cpp:55-67 | removing a body twice stacks its id twice: the next two creations both return it, and in between the live count wraps to 2^32 - 1 |
| RigidBodyWorkers.Integrate | src/managers/physicsmanager/workers/RigidBodyWorker.cpp:103-119 | a static body is untouched, and a moving one changes only its velocity and position |
| RigidBodyWorkers.IntegrateMeaning | src/managers/physicsmanager/workers/RigidBodyWorker.cpp:108-118 | a body with inverse mass gains exactly gravity times dt, one without keeps its velocity, and each moves by its new velocity times dt |
| RigidBodyWorkers.ZeroStepIsIdentity | src/managers/physicsmanager/workers/RigidBodyWorker.cpp:103-119 | a zero time step changes no body |
| RigidBodyWorkers.PositionalLookup | src/managers/physicsmanager/workers/RigidBodyWorker.cpp:84-95 | once initialized, id k finds element k - 1 exactly for 1 ≤ k ≤ size; otherwise nothing |
| RigidBodyWorkers.RigidBodyWorker.constructor | src/managers/physicsmanager/workers/RigidBodyWorker.h:42-53 | uninitialized, room for 512 bodies, ids from 1, gravity (0, -9.81, 0) |
| RigidBodyWorkers.RigidBodyWorker.Initialize | src/managers/physicsmanager/workers/RigidBodyWorker.cpp:9-20 | changes nothing when already initialized; otherwise empties the list and the stack and restarts ids at 1 |
| RigidBodyWorkers.RigidBodyWorker.Cleanup | src/managers/physicsmanager/workers/RigidBodyWorker.cpp:22-27 | empties the list and the stack and marks the worker uninitialized; the counter stays |
| RigidBodyWorkers.RigidBodyWorker.AddRigidBody | src/managers/physicsmanager/workers/RigidBodyWorker.cpp:29-54 | 0 when uninitialized; otherwise an id is taken from the stack or the counter before the capacity check, so a full worker answers 0 and loses the id; else the body is appended under that id |
| RigidBodyWorkers.RigidBodyWorker.RemoveRigidBody | src/managers/physicsmanager/workers/RigidBodyWorker.cpp:56-82 | false when uninitialized, for id 0 and for ids not yet handed out; otherwise the first body is erased whatever the id and the id is stacked |
| RigidBodyWorkers.RigidBodyWorker.GetRigidBody | src/managers/physicsmanager/workers/RigidBodyWorker.cpp:84-95 | element id - 1 for 1 ≤ id ≤ size once initialized, null otherwise |
| RigidBodyWorkers.RigidBodyWorker.UpdatePhysics | src/managers/physicsmanager/workers/RigidBodyWorker.cpp:97-125 | nothing when uninitialized; otherwise every body goes through one integration step in place |
| RigidBodyWorkers.RigidBodyWorker.SetGravity | src/managers/physicsmanager/workers/RigidBodyWorker.cpp:127-136 | sets the gravity and nothing else |
| RigidBodyWorkers.RigidBodyWorker.SetMaxRigidBodies | src/managers/physicsmanager/workers/RigidBodyWorker.h:32 | sets the capacity and nothing else |
| RigidBodyWorkers.RigidBodyWorker.GetRigidBodyCount | src/managers/physicsmanager/workers/RigidBodyWorker.h:34 | the number of bodies in the list |
| BroadPhase.MaxRadius | src/managers/collisionmanager/workers/BroadPhaseWorker.cpp:47-49 | the radius is the largest of the first three shape values |
| BroadPhase.Tagged | src/managers/collisionmanager/workers/BroadPhaseWorker.cpp:22-26 | every index pair becomes an active pair record, in order |
| BroadPhase.UpdateBroadPhase | src/managers/collisionmanager/workers/BroadPhaseWorker.cpp:5-30 | the output is cleared, then every pair i < j of bodies not both static that passes `isAABBOverlapping` (max-radius bounding spheres) is appended, active, in loop order; the same holds at src/collision/CollisionSystem.cpp:37-73 |
| BroadPhase.AppendCandidates | src/managers/collisionmanager/workers/BroadPhaseWorker.cpp:12-28 | the inner loop appends (i, j) for every j > i whose bodies are not both static and pass `isAABBOverlapping` |
| BroadPhase.BroadPhaseComplete | src/managers/collisionmanager/workers/BroadPhaseWorker.cpp:11-29 | every pair i < j of bodies not both static that passes `isAABBOverlapping` is reported and marked active; the same holds for the corrected bound |
| BroadPhase.BroadPhaseSound | src/managers/collisionmanager/workers/BroadPhaseWorker.cpp:11-29 | every reported pair is active and names bodies i < j that are not both static and pass `isAABBOverlapping`; the same holds for the corrected bound |
| BroadPhase.OverlapSymmetric | src/managers/collisionmanager/workers/BroadPhaseWorker.cpp:32-45 | the bounding test, as written and corrected, does not depend on the order of the bodies |
| BroadPhase.CornerBoxesMissed | src/managers/collisionmanager/workers/BroadPhaseWorker.cpp:32-49 | unit boxes offset by 1.9 on every axis touch in the narrow phase, yet the test as written drops them; the corrected test keeps them; the same holds at src/collision/CollisionSystem.cpp:53-64 |
| BroadPhase.SphereHitsAreCandidates | src/managers/collisionmanager/workers/BroadPhaseWorker.cpp:32-45 | two spheres the narrow phase finds touching always pass `isAABBOverlapping`, and the corrected test too |
| BroadPhase.CorrectedCoversAsWritten | src/managers/collisionmanager/workers/BroadPhaseWorker.cpp:32-49 | for non-negative shape values, every pair `isAABBOverlapping` passes also passes the corrected test, whose box radius is never smaller |
| BroadPhase.BoxHitsAreCandidates | src/managers/collisionmanager/workers/BroadPhaseWorker.cpp:32-45 | with the corrected radii, two boxes the narrow phase finds touching are always a candidate |
| Pairs.RowMembers | src/managers/collisionmanager/workers/BroadPhaseWorker.cpp:12-28 | the inner loop's pairs are exactly the kept pairs of entry i with a later entry |
| Pairs.UpperPairsMembers | src/managers/collisionmanager/workers/BroadPhaseWorker.cpp:11-29 | the nested loop yields every kept pair (es[i], es[j]) with i < j and nothing else |
| Pairs.AllPairsMembers | src/managers/collisionmanager/workers/BroadPhaseWorker.cpp:11-29 | every pair produced comes from positions i < j and is kept, and every such pair is produced |
| Pairs.AllPairsLength | src/PhysicsEngine/CPUPhysicsEngine/systems/EnhancedCPUPhysicsCollisionSystem.cpp:215-219 | with a test keeping every pair, n entries give n(n - 1)/2 pairs |
| Pairs.UpperFoldIsFold | src/cpu_physics/CPUPhysicsSystem.cpp:211-231 | the nested loops that update state pair by pair apply the step to exactly the enumerated pairs, in their order |
| Pairs.EnumeratePairs | src/physics_engine/cpu_physics_engine/systems/cpu_physics_collision_system.cpp:190-209 | the nested loop appends every kept pair (es[i], es[j]) with i < j, in loop order |
| Pairs.AppendRow | src/physics_engine/cpu_physics_engine/systems/cpu_physics_collision_system.cpp:191-208 | the inner loop appends the kept pairs of entry i with every later entry |
| NarrowPhase.Detected | src/collision/CollisionSystem.cpp:75-128 | at most one contact per pair and never more than the capacity |
| NarrowPhase.DetectCollisions | src/collision/CollisionSystem.cpp:75-128 | the output and counter are cleared; every pair runs through the shape dispatch and at most the capacity of contacts is kept; the counter ends equal to their number; the same holds at src/physics_engine/gpu_physics_engine/managers/collisionmanager/workers/DetectCollisionWorker.cpp:7-64 |
| NarrowPhase.DetectedSound | src/collision/CollisionSystem.cpp:118-126 | every stored contact is the contact of one pair and names that pair's bodies in pair order |
| NarrowPhase.DetectedComplete | src/collision/CollisionSystem.cpp:118-126 | while capacity is not reached, every pair that yields a contact has it stored |
| NarrowPhase.BoxFirstKeepsPairOrder | src/collision/CollisionSystem.cpp:99-106 | a box-first pair is tested with the bodies swapped and the normal reversed, but the stored ids are reset to pair order; the same holds at src/physics_engine/gpu_physics_engine/managers/collisionmanager/workers/DetectCollisionWorker.cpp:35-42 |
| NarrowPhase.OtherShapesNeverHit | src/collision/CollisionSystem.cpp:90-116 | only sphere and box pairs are tested; a capsule or a plane never yields a contact |
| NarrowPhase.SeparationMeaning | src/collision/CollisionSystem.cpp:161-185 | a hit exactly when the distance is below the reach; the depth is the reach minus the distance, positive, along a unit normal |
| NarrowPhase.SeparationAtZero | src/collision/CollisionSystem.cpp:172-177 | for coincident points the fallback normal (1, 0, 0) is used and the depth is the whole reach |
| NarrowPhase.SphereVsSphereMeaning | src/collision/CollisionSystem.cpp:153-188 | two spheres touch exactly when their centres are closer than the radius sum; the depth is the sum minus the distance, the normal is a unit vector from B to A, and the point is on A's surface; the same holds at src/physics_engine/gpu_physics_engine/managers/collisionmanager/workers/DetectCollisionWorker.cpp:66-101 |
| NarrowPhase.SphereVsSphereSwap | src/collision/CollisionSystem.cpp:153-188 | swapping the spheres keeps the hit and its depth and reverses the normal for distinct centres |
| NarrowPhase.CoincidentSpheres | src/collision/CollisionSystem.cpp:172-177 | coincident centres give normal (1, 0, 0) and the whole radius sum as depth |
| NarrowPhase.UnitSpheresScenario | src/components/tests/tests/CollisionTests.h:19-54 | unit spheres 1.5 apart overlap by 0.5 along -x, touching at A's surface; the same holds at lines 98-123 |
| NarrowPhase.ClosestInBox | src/collision/CollisionSystem.cpp:197-201 | the clamped point lies in the box and is the centre itself exactly when the centre is inside |
| NarrowPhase.InsideNormalMeaning | src/collision/CollisionSystem.cpp:222-236 | inside the box, the normal is ±1 on the axis of the nearest face, + exactly when the sphere centre lies above the box centre there |
| NarrowPhase.SphereVsBoxMeaning | src/collision/CollisionSystem.cpp:190-248 | a sphere touches the box exactly when its centre is closer than its radius to the clamped point; the point is the clamped point, the depth positive and the normal a unit vector; the same holds at src/physics_engine/gpu_physics_engine/managers/collisionmanager/workers/DetectCollisionWorker.cpp:103-161 |
| NarrowPhase.SphereCentreInsideBox | src/collision/CollisionSystem.cpp:222-245 | a sphere whose centre is inside the box touches it at its centre with the whole radius as depth, pushed out through the nearest face |
| NarrowPhase.BoxVsBoxMeaning | src/collision/CollisionSystem.cpp:250-290 | two boxes touch exactly when they overlap on every axis; the depth is the least overlap, on the first axis reaching it, with a ±1 normal there and the midpoint as contact; the same holds at src/physics_engine/gpu_physics_engine/managers/collisionmanager/workers/DetectCollisionWorker.cpp:163-203 |
| NarrowPhase.BoxVsBoxSwap | src/collision/CollisionSystem.cpp:250-290 | swapping the boxes keeps the hit and its depth and reverses the normal when the centres differ on that axis |
| NarrowPhase.CombinedRestitutionMeaning | src/collision/CollisionSystem.cpp:292-295 | the combined restitution is symmetric and lies between the two values; the same holds at src/components/tests/tests/CollisionTests.h:78-81, src/physics_engine/gpu_physics_engine/managers/collisionmanager/workers/DetectCollisionWorker.cpp:205-208 |
| NarrowPhase.CombinedFrictionMeaning | src/collision/CollisionSystem.cpp:297-300 | the combined friction is symmetric, squares to the product, and equals a shared value; the same holds at src/components/tests/tests/CollisionTests.h:79-82, src/physics_engine/gpu_physics_engine/managers/collisionmanager/workers/DetectCollisionWorker.cpp:210-213 |
| CollisionSystems.CollisionSystem.constructor | src/collision/CollisionSystem.cpp:11-13 | no capacity, no contacts, no pairs |
| CollisionSystems.CollisionSystem.Initialize | src/collision/CollisionSystem.cpp:19-25 | sets the capacity and always succeeds |
| CollisionSystems.CollisionSystem.Cleanup | src/collision/CollisionSystem.cpp:27-35 | drops the contacts and the pairs; the counter stays |
| CollisionSystems.CollisionSystem.UpdateBroadPhase | src/collision/CollisionSystem.cpp:37-73 | the pairs become the pairs i < j of bodies not both static whose max-radius bounding spheres (`std::max` of the first three shape values) overlap |
| CollisionSystems.CollisionSystem.DetectCollisions | src/collision/CollisionSystem.cpp:75-128 | the contacts become those of the stored pairs with bodies looked up by slot, at most the capacity; each names two existing slots |
| CollisionSystems.StoreContactsNameSlots | src/collision/CollisionSystem.cpp:81-84 | with slot lookup, every contact names two existing slots, in the order of its pair |
| CollisionSystems.DetectWithWorker | src/physics_engine/gpu_physics_engine/managers/collisionmanager/workers/DetectCollisionWorker.cpp:7-64 | the same loop with bodies looked up positionally in the worker; an uninitialized worker yields no contact |
| CollisionSystems.WorkerSkipsIdZero | src/physics_engine/gpu_physics_engine/managers/collisionmanager/workers/DetectCollisionWorker.cpp:17-20 | through the worker's lookup, a pair naming id 0 never yields a contact |
| CollisionSystems.UninitializedWorkerFindsNothing | src/physics_engine/gpu_physics_engine/managers/collisionmanager/workers/DetectCollisionWorker.cpp:17-20 | an uninitialized worker finds no body, so no pair yields a contact |
| CollisionSystems.StoredPlaneActsAsPoint | src/rigidbody/RigidBodySystem.cpp:163-195 | the plane the store builds acts as a point: a sphere centred on it is pushed sideways, and one sunk into the plane elsewhere is not touched |
| CollisionSystems.CorrectedPlaneIsNotTested | src/collision/CollisionSystem.cpp:90-116 | the corrected plane has the PLANE code, which the dispatch never tests |
| CollisionSystems.CollisionSystem.GetContactCount | src/collision/CollisionSystem.h:31 | the counter of kept contacts |
| CollisionSystems.CollisionSystem.GetCollisionPairCount | src/collision/CollisionSystem.h:32 | the number of stored pairs |

## Left out

- Floating point: quantities are reals. Rounding, NaN, infinity and the `std::isfinite` / `x != x` tests are not modelled; over reals the finiteness tests always hold. `FLT_MAX` in the narrow phase's axis search is read as "larger than every overlap".
- `std::sqrt` is a function parameter that is not computed. Lemmas that need its meaning require `IsSqrt(sqrt)`.
- Integer widths: the `uint32_t` id counters are `nat`, so their wrap-around after 2^32 ids is not modelled. Neither are the `size_t` → `uint32_t` casts of counts.
- The 64-bit layer masks are sequences of 64 booleans rather than machine words. The bit operations the registries use (set, clear, or, and, test) are defined on those sequences.
- Logging: every `LOG_*` call and the constructors whose only effect is a log line (`CPUPhysicsSystem`, `CPUPhysicsEngine`, `RigidBodyComponentFactory`, both collision systems).
- Timing statistics: the `std::chrono` measurements, `lastUpdateTime`, `updateStatistics` and `getDebugInfo`. Entity and collision counts are kept.
- GPU transfer: `uploadRigidBodiesToGPU`, `downloadRigidBodiesFromGPU`, `uploadContactsToGPU`, `downloadContactsFromGPU` and `CollisionSystem::resolveContacts` only log. The Vulkan buffers behind them are outside this model.
- Singletons: the `getInstance` accessors of the particle store, `LayerSystem` and `RigidBodyFactory`. Each object is modelled as an ordinary instance.
- Destructors: `~RigidBodySystem` and `~CollisionSystem` only call `cleanup`, which is modelled.
- `std::vector::reserve` in the rigid body worker's constructor has no observable effect. In the particle store's `initialize` its failure (`length_error` or `bad_alloc`) is the parameter `reserveFails` of `ParticleEcs.ParticleEcsManager.Initialize`, since memory exhaustion is outside the model.
- Trivial accessors that are plain field reads: `getId`, `isActive`, `getPhysicsLayer`, `getUserData`, `isInitialized`, `getLastCollisionCount`. The same goes for `componentTypeToIndex` and for the getters of capacities and gravity. The model reads these fields directly.
- Debug text: the concrete components' `getTypeName` and `getDataSize`, and the enhanced system's `getName`, `getType`, `getPriority` and `getOptionalComponents`, return constants and are not modelled. The concrete components' own `getType` is modelled as `ConcreteComponents.ComponentData.Type`.
- `EnhancedCPUPhysicsCollisionSystem::processEntity` only logs.
- The particle store's `getParticleComponentData` and `getParticleComponentWithCPUOffloadingData` copy the component values out in hash-table order. Only the id queries over the same tables are modelled.
- The entity factories' `getTransform`, `getPhysics` and `getCollider` delegate to the store's getters, which are modelled.
- `CPUPhysicsCollisionSystem::calculateDistance` is never called and is not modelled. The enhanced system's `calculateDistance` is modelled.
- Template and overload dispatch in the store: the generic `addComponent<T>` / `getComponent<T>` become one member per component table. `std::type_index` and virtual interfaces become a closed datatype of component kinds.
- Raw pointers: a `get*Component` that returns a pointer becomes an `Option` value. Writes through such a pointer become a map update of the owning table.
- Angular motion: angular velocity is stored and damped but never integrated into orientation.
- The rigid body worker's GPU-side mirror calls into the rigid body system, and its `getRigidBodySystem` / `setRigidBodySystem` accessors.
- Cross-component wiring: the broad-phase worker emits 0-based vector indices, while `RigidBodyWorker::getRigidBody` is 1-based. How the collision manager connects them is outside this model. The detection loops take the body lookup as a parameter; `CollisionSystems.WorkerSkipsIdZero` states the consequence for index 0.
- RigidBodies.SphereBody, RigidBodies.BoxBody, RigidBodyFactories.RigidBodyFactory.CreateSphere, RigidBodyFactories.RigidBodyFactory.CreateBox, RigidBodyStore.RigidBodySystem.CreateSphere and RigidBodyStore.RigidBodySystem.CreateBox store the guarded inverse inertia: 0 on an axis whose moment is 0 (a positive mass with radius 0, or with both sides across that axis 0). There the source stores `1.0f / 0` = +inf, which has no real value. Everywhere else their inertia equals the unguarded routines' (`SphereInertiaAsWritten`, `BoxInertiaAsWritten`), as their ensures state. The division itself is the second and third "## Findings" rows. No modelled operation reads `invInertia`.
- BroadPhase.SphereHitsAreCandidates: the corrected broad phase is proved conservative for sphere–sphere and box–box pairs only (`BoxHitsAreCandidates`). Sphere–box pairs are not covered.
- Ecs.EcsManager.EntitiesWithTransform, EntitiesWithPhysics and EntitiesWithBoxCollider state the element set and the absence of duplicates, not an order, because `unordered_map` iteration order is unspecified. The same applies to every other query that walks a hash map.
- The variant entity factory (src/PhysicsEngine/CPUPhysicsEngine/factories/entities/RigidbodyEntityFactory.cpp:71, :79) calls `ecsManager->isValidEntity`, which neither `ECSManager.h` declares; both declare `isEntityValid` (line 30). The model reads the call as `isEntityValid` (`Ecs.EcsManager.IsEntityValid`), the only validity test the store offers.
- The engine in src/cpu_physics/CPUPhysicsEngine.h includes `factories/rigidbody_entity_factory.h` (line 14), which is not part of this model. The model assumes it declares the factory implemented in src/PhysicsEngine/CPUPhysicsEngine/factories/RigidbodyEntityFactory.cpp, the one with the same constructor and `createRigidBody` signature, and uses `EntityFactory.RigidBodyEntityFactory` for it.
- DetectCollisionWorker.cpp (src/physics_engine/gpu_physics_engine/managers/collisionmanager/workers/DetectCollisionWorker.cpp:2) includes a `RigidBodyWorker.h` three directories up, under a `cpu_physics_engine` directory that is not part of this model. The model assumes it declares the worker implemented in src/managers/physicsmanager/workers/RigidBodyWorker.cpp, and `CollisionSystems.DetectWithWorker` looks bodies up with that worker's `getRigidBody` (`RigidBodyWorkers.PositionalLookup`).
- `LayerSystem.h` is not part of this model. The constants src/managers/physicsmanager/LayerSystem.cpp uses (`INVALID_LAYER`, `DEFAULT_LAYER`, `MAX_LAYERS`) are taken as 0, 1 and 64, the values src/managers/physicsmanager/workers/PhysicsLayerWorker.h:16-18 gives them; `LayerMasks.InvalidLayer`, `DefaultLayer` and `MaxLayers` hold them for both registries.
- Callbacks: the layer callback and the entity filter are function values. Any effects a callback might have in C++ are not modelled.
- By-reference mutators of the component factory (`set*`, `updatePhysicsMass`, `calculateInverseMass`) are modelled as functions that return the updated component.

## Findings

| source | as written | input that shows it | evidently intended | confidence | as-written member | corrected member |
|---|---|---|---|---|---|---|
| src/physics_engine/cpu_physics_engine/systems/cpu_physics_collision_system.cpp:366-367 | the impulse divides by `invMassA + invMassB` without checking that the sum is non-zero | a kinematic body (mass 0, not static, inverse mass 0) approaching or resting on a static body: the impulse is x / 0 when approaching, or 0 / 0 at rest | skip the impulse when the sum is zero, the one input where the division is undefined (`separateEntities` guards its own division at lines 315-318) | not executed | EcsCollision.KinematicRestingOnStaticDividesByZero | EcsCollision.ImpulseRestitution |
| src/rigidbody/RigidBodySystem.cpp:204-211 | the inverse sphere inertia is `1 / I` with `I = 2/5·m·r²`, which is 0 for radius 0 | mass 1, radius 0 | zero inverse inertia whenever the inertia is zero, as for mass ≤ 0 | not executed | RigidBodies.ZeroRadiusSphereDividesByZero | RigidBodies.SphereInertiaMeaning |
| src/rigidbody/RigidBodySystem.cpp:221-228 | each inverse box inertia is `1 / I` with `I = m/12·(a² + b²)`, which is 0 when both other sides are 0 | mass 1, a 1 × 0 × 0 box | zero inverse inertia on an axis whose inertia is zero | not executed | RigidBodies.FlatBoxDividesByZero | RigidBodies.BoxInertiaMeaning |
| src/managers/collisionmanager/workers/BroadPhaseWorker.cpp:32-49 | the broad phase bounds a box by a sphere of radius max(half-extents), which is smaller than the box's corner distance | two boxes of half-extent 1 whose centres differ by (1.9, 1.9, 1.9): the narrow phase reports a contact, but the pair is never a candidate | a bound that contains the whole box, so that every narrow-phase contact is a candidate | not executed | BroadPhase.CornerBoxesMissed | BroadPhase.BoxHitsAreCandidates |
| src/rigidbody/RigidBodySystem.cpp:163-195 | `createStaticPlane` never sets the shape code, so the zeroed body keeps code 0 (SPHERE) with radius 0 | a plane at height y and a unit sphere centred at (0, y, 0): the narrow phase treats the plane as a point and pushes the sphere sideways | the PLANE shape code and plane data, as `RigidBodyFactory::createStaticPlane` sets them | not executed | CollisionSystems.StoredPlaneActsAsPoint | RigidBodyStore.StaticPlaneMatchesFactory |
