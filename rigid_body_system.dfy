// The rigid body slot store (`RigidBodySystem`): a vector of body slots, a
// LIFO stack of freed slot ids, a capacity, the next fresh id and the
// uniform-buffer values (gravity, time step, live-body count) it would
// upload. Removing a body zeroes its slot and stacks its id for reuse.
module RigidBodyStore {
  import opened Common
  import opened Components
  import opened RigidBodies
  import RigidBodyFactories

  /** `UINT32_MAX`, the id `createRigidBody` answers when the store is full. */
  const InvalidBodyId: nat := 0xFFFF_FFFF

  /** `2^32`: the uniform count is a `uint32_t`. */
  const Uint32Range: nat := 0x1_0000_0000

  /** `getRigidBody` on a slot vector: the slot, or null past the end. */
  function SlotLookup(slots: seq<RigidBody>): (lookup: nat -> Option<RigidBody>)
    ensures forall id: nat :: lookup(id).Some? <==> id < |slots|
    ensures forall id: nat :: id < |slots| ==> lookup(id) == Some(slots[id])
  {
    (id: nat) => if id < |slots| then Some(slots[id]) else None
  }

  /** The uniform count `(uint32_t)(slots − free ids)`, reduced modulo 2^32 as the unsigned subtraction wraps. */
  function LiveCount(slotCount: nat, freeCount: nat): (n: nat)
    ensures n < Uint32Range
    ensures freeCount <= slotCount < Uint32Range ==> n == slotCount - freeCount
    ensures slotCount < freeCount <= slotCount + Uint32Range ==> n == Uint32Range - (freeCount - slotCount)
  {
    (slotCount - freeCount) % Uint32Range
  }

  class RigidBodySystem {
    var slots: seq<RigidBody>
    var freeIds: seq<nat>
    var maxRigidBodies: nat
    var nextId: nat
    var gravity: Vec3
    var deltaTime: real
    var rigidBodyCount: nat

    /** Every stacked free id names a slot. */
    ghost predicate Valid()
      reads this
    {
      forall k :: 0 <= k < |freeIds| ==> freeIds[k] < |slots|
    }

    /** Until `cleanup`, the next fresh id is the slot count, so every id is its slot's index. */
    ghost predicate IdsAreIndices()
      reads this
    {
      nextId == |slots|
    }

    /** The constructor: no capacity, id 0 next, Earth gravity, a 16 ms step and no bodies. */
    constructor ()
      ensures Valid() && IdsAreIndices()
      ensures slots == [] && freeIds == [] && maxRigidBodies == 0 && nextId == 0
      ensures gravity == Vec3(0.0, -9.81, 0.0) && deltaTime == 0.016 && rigidBodyCount == 0
    {
      slots := [];
      freeIds := [];
      maxRigidBodies := 0;
      nextId := 0;
      gravity := Vec3(0.0, -9.81, 0.0);
      deltaTime := 0.016;
      rigidBodyCount := 0;
    }

    /** `initialize`: sets the capacity; always succeeds. */
    method Initialize(maxBodies: nat) returns (ok: bool)
      modifies this
      ensures ok && maxRigidBodies == maxBodies
      ensures slots == old(slots) && freeIds == old(freeIds) && nextId == old(nextId)
      ensures gravity == old(gravity) && deltaTime == old(deltaTime) && rigidBodyCount == old(rigidBodyCount)
    {
      maxRigidBodies := maxBodies;
      ok := true;
    }

    /** `cleanup`: drops every slot and free id but keeps the next id, so ids stop matching indices. */
    method Cleanup()
      modifies this
      ensures Valid()
      ensures slots == [] && freeIds == [] && nextId == old(nextId) && maxRigidBodies == old(maxRigidBodies)
      ensures gravity == old(gravity) && deltaTime == old(deltaTime) && rigidBodyCount == old(rigidBodyCount)
      ensures IdsAreIndices() <==> old(nextId) == 0
    {
      slots := [];
      freeIds := [];
    }

    /**
     * `createRigidBody`: a full store (freed slots count) answers UINT32_MAX;
     * otherwise the most recently freed id is popped and its slot
     * overwritten, or the body is appended under the next fresh id.
     */
    method CreateRigidBody(body: RigidBody) returns (id: nat)
      requires Valid()
      modifies this
      ensures Valid()
      ensures maxRigidBodies == old(maxRigidBodies) && gravity == old(gravity)
      ensures deltaTime == old(deltaTime) && rigidBodyCount == old(rigidBodyCount)
      ensures |old(slots)| >= maxRigidBodies ==>
                id == InvalidBodyId && slots == old(slots) && freeIds == old(freeIds) && nextId == old(nextId)
      ensures |old(slots)| < maxRigidBodies && old(freeIds) != [] ==>
                id == old(freeIds)[|old(freeIds)| - 1] && freeIds == old(freeIds)[..|old(freeIds)| - 1]
                && slots == old(slots)[id := body] && nextId == old(nextId)
      ensures |old(slots)| < maxRigidBodies && old(freeIds) == [] ==>
                id == old(nextId) && nextId == old(nextId) + 1 && slots == old(slots) + [body] && freeIds == []
      ensures old(IdsAreIndices()) ==> IdsAreIndices()
      ensures old(IdsAreIndices()) && id != InvalidBodyId ==> id < |slots| && slots[id] == body
    {
      if |slots| >= maxRigidBodies {
        return InvalidBodyId;
      }
      if freeIds != [] {
        id := freeIds[|freeIds| - 1];
        freeIds := freeIds[..|freeIds| - 1];
        slots := slots[id := body];
      } else {
        id := nextId;
        nextId := nextId + 1;
        slots := slots + [body];
      }
    }

    /**
     * `removeRigidBody`: false past the last slot; otherwise the slot is
     * zeroed and its id stacked for reuse, with no check that it is already there.
     */
    method RemoveRigidBody(bodyId: nat) returns (removed: bool)
      requires Valid()
      modifies this
      ensures Valid()
      ensures removed <==> bodyId < |old(slots)|
      ensures !removed ==> slots == old(slots) && freeIds == old(freeIds)
      ensures removed ==> slots == old(slots)[bodyId := ZeroBody()] && freeIds == old(freeIds) + [bodyId]
      ensures nextId == old(nextId) && maxRigidBodies == old(maxRigidBodies) && gravity == old(gravity)
      ensures deltaTime == old(deltaTime) && rigidBodyCount == old(rigidBodyCount)
      ensures |slots| == |old(slots)|
    {
      if bodyId >= |slots| {
        return false;
      }
      freeIds := freeIds + [bodyId];
      slots := slots[bodyId := ZeroBody()];
      removed := true;
    }

    /** `getRigidBody`: the slot, or null iff the id is past the last slot. */
    function GetRigidBody(bodyId: nat): (r: Option<RigidBody>)
      reads this
      ensures r.Some? <==> bodyId < |slots|
      ensures r.Some? ==> r.value == slots[bodyId]
    {
      SlotLookup(slots)(bodyId)
    }

    /** `setGravity`. */
    method SetGravity(x: real, y: real, z: real)
      modifies this
      ensures gravity == Vec3(x, y, z)
      ensures slots == old(slots) && freeIds == old(freeIds) && nextId == old(nextId) && maxRigidBodies == old(maxRigidBodies)
      ensures deltaTime == old(deltaTime) && rigidBodyCount == old(rigidBodyCount)
    {
      gravity := Vec3(x, y, z);
    }

    /** `updateUniformBuffer`: the new step and the count of slots minus free ids, as a `uint32_t`. */
    method UpdateUniformBuffer(dt: real)
      modifies this
      ensures deltaTime == dt && rigidBodyCount == LiveCount(|slots|, |freeIds|)
      ensures slots == old(slots) && freeIds == old(freeIds) && nextId == old(nextId) && maxRigidBodies == old(maxRigidBodies)
      ensures gravity == old(gravity)
    {
      deltaTime := dt;
      rigidBodyCount := LiveCount(|slots|, |freeIds|);
    }

    /** `getRigidBodyCount`: the number of slots, freed ones included. */
    function GetRigidBodyCount(): (n: nat)
      reads this
      ensures n == |slots|
    {
      |slots|
    }

    /** `createSphere`: a sphere with material 0.6 / 0.3 on layer 0, stored as by `createRigidBody`. */
    method CreateSphere(x: real, y: real, z: real, radius: real, mass: real) returns (id: nat)
      requires Valid()
      modifies this
      ensures Valid()
      ensures maxRigidBodies == old(maxRigidBodies) && gravity == old(gravity)
      ensures deltaTime == old(deltaTime) && rigidBodyCount == old(rigidBodyCount)
      ensures |old(slots)| >= maxRigidBodies ==>
                id == InvalidBodyId && slots == old(slots) && freeIds == old(freeIds) && nextId == old(nextId)
      ensures |old(slots)| < maxRigidBodies && old(freeIds) != [] ==>
                id == old(freeIds)[|old(freeIds)| - 1] && freeIds == old(freeIds)[..|old(freeIds)| - 1]
                && slots == old(slots)[id := SphereBody(Vec3(x, y, z), radius, mass, 0.6, 0.3, 0)] && nextId == old(nextId)
      ensures |old(slots)| < maxRigidBodies && old(freeIds) == [] ==>
                id == old(nextId) && nextId == old(nextId) + 1
                && slots == old(slots) + [SphereBody(Vec3(x, y, z), radius, mass, 0.6, 0.3, 0)] && freeIds == []
      ensures old(IdsAreIndices()) ==> IdsAreIndices()
      ensures old(IdsAreIndices()) && id != InvalidBodyId ==>
                id < |slots| && slots[id] == SphereBody(Vec3(x, y, z), radius, mass, 0.6, 0.3, 0)
    {
      id := CreateRigidBody(SphereBody(Vec3(x, y, z), radius, mass, 0.6, 0.3, 0));
    }

    /** `createBox`: a box with half-extents and material 0.4 / 0.5 on layer 0. */
    method CreateBox(x: real, y: real, z: real, width: real, height: real, depth: real, mass: real) returns (id: nat)
      requires Valid()
      modifies this
      ensures Valid()
      ensures maxRigidBodies == old(maxRigidBodies) && gravity == old(gravity)
      ensures deltaTime == old(deltaTime) && rigidBodyCount == old(rigidBodyCount)
      ensures |old(slots)| >= maxRigidBodies ==>
                id == InvalidBodyId && slots == old(slots) && freeIds == old(freeIds) && nextId == old(nextId)
      ensures |old(slots)| < maxRigidBodies && old(freeIds) != [] ==>
                id == old(freeIds)[|old(freeIds)| - 1] && freeIds == old(freeIds)[..|old(freeIds)| - 1]
                && slots == old(slots)[id := BoxBody(Vec3(x, y, z), width, height, depth, mass, 0.4, 0.5, 0)] && nextId == old(nextId)
      ensures |old(slots)| < maxRigidBodies && old(freeIds) == [] ==>
                id == old(nextId) && nextId == old(nextId) + 1
                && slots == old(slots) + [BoxBody(Vec3(x, y, z), width, height, depth, mass, 0.4, 0.5, 0)] && freeIds == []
      ensures old(IdsAreIndices()) ==> IdsAreIndices()
      ensures old(IdsAreIndices()) && id != InvalidBodyId ==>
                id < |slots| && slots[id] == BoxBody(Vec3(x, y, z), width, height, depth, mass, 0.4, 0.5, 0)
    {
      id := CreateRigidBody(BoxBody(Vec3(x, y, z), width, height, depth, mass, 0.4, 0.5, 0));
    }

    /**
     * `createStaticPlane`: a static massless body at height `y` with material
     * 0.2 / 0.8. Its shape is never set, so the stored body keeps the zeroed
     * sphere code with radius 0 (`StaticPlaneAsBuilt`), not a PLANE.
     */
    method CreateStaticPlane(y: real) returns (id: nat)
      requires Valid()
      modifies this
      ensures Valid()
      ensures maxRigidBodies == old(maxRigidBodies) && gravity == old(gravity)
      ensures deltaTime == old(deltaTime) && rigidBodyCount == old(rigidBodyCount)
      ensures |old(slots)| >= maxRigidBodies ==>
                id == InvalidBodyId && slots == old(slots) && freeIds == old(freeIds) && nextId == old(nextId)
      ensures |old(slots)| < maxRigidBodies && old(freeIds) != [] ==>
                id == old(freeIds)[|old(freeIds)| - 1] && freeIds == old(freeIds)[..|old(freeIds)| - 1]
                && slots == old(slots)[id := StaticPlaneAsBuilt(y)] && nextId == old(nextId)
      ensures |old(slots)| < maxRigidBodies && old(freeIds) == [] ==>
                id == old(nextId) && nextId == old(nextId) + 1
                && slots == old(slots) + [StaticPlaneAsBuilt(y)] && freeIds == []
      ensures old(IdsAreIndices()) ==> IdsAreIndices()
      ensures old(IdsAreIndices()) && id != InvalidBodyId ==>
                id < |slots| && slots[id] == StaticPlaneAsBuilt(y)
    {
      id := CreateRigidBody(StaticPlaneAsBuilt(y));
    }
  }

  /**
   * The body `createStaticPlane` stores: static, massless, without inertia,
   * identity rotation, material 0.2 / 0.8. Its shape type is never set, so it
   * keeps the zeroed code of a sphere, with radius 0.
   */
  function StaticPlaneAsBuilt(y: real): (b: RigidBody)
    ensures b.position == Vec3(0.0, y, 0.0) && b.rotation == IdentityQuat && IsStatic(b)
    ensures b.mass == 0.0 && b.invMass == 0.0 && b.inertia == Zero && b.invInertia == Zero
    ensures b.restitution == 0.2 && b.friction == 0.8
    ensures b.shapeType == SphereShape && b.shapeData.d0 == 0.0 && b.layer == 0
  {
    ZeroBody().(position := Vec3(0.0, y, 0.0), rotation := IdentityQuat, mass := 0.0, invMass := 0.0, isStatic := 1,
                restitution := 0.2, friction := 0.8, inertia := Zero, invInertia := Zero)
  }

  /**
   * The plane `createStaticPlane` evidently means to store: the body above
   * with shape PLANE, normal (0, 1, 0) and offset `y`, as the factory builds it.
   */
  function StaticPlane(y: real): (b: RigidBody)
    ensures b.shapeType == PlaneShape && b.shapeData == ShapeData(0.0, 1.0, 0.0, y)
    ensures b.(shapeType := SphereShape, shapeData := ShapeData(0.0, 0.0, 0.0, 0.0)) == StaticPlaneAsBuilt(y)
  {
    StaticPlaneAsBuilt(y).(shapeType := PlaneShape, shapeData := ShapeData(0.0, 1.0, 0.0, y))
  }

  /** The corrected plane is the factory's plane on layer 0 once the factory's material is 0.2 / 0.8. */
  lemma StaticPlaneMatchesFactory(factory: RigidBodyFactories.RigidBodyFactory, y: real)
    requires factory.GetDefaultMaterial() == (0.2, 0.8)
    ensures StaticPlane(y) == factory.CreateStaticPlane(y, 0)
  {
  }

  /**
   * Removing the same body twice stacks its id twice: the next two creations
   * both answer that id and share its slot, and in between the uniform count
   * wraps round to 2^32 − 1.
   */
  method DoubleRemoveHandsOutTwice(body: RigidBody) returns (first: nat, second: nat, count: nat)
    ensures first == 0 && second == 0
    ensures count == Uint32Range - 1
  {
    var store := new RigidBodySystem();
    var ok := store.Initialize(4);
    var id := store.CreateRigidBody(body);
    var removed := store.RemoveRigidBody(id);
    removed := store.RemoveRigidBody(id);
    store.UpdateUniformBuffer(0.016);
    count := store.rigidBodyCount;
    first := store.CreateRigidBody(body);
    second := store.CreateRigidBody(body);
  }
}
