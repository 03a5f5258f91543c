// The physics manager's rigid body worker (`RigidBodyWorker`): a list of
// bodies with ids handed out from a free stack or a counter starting at 1,
// positional lookup, and an explicit-Euler step under gravity.
module RigidBodyWorkers {
  import opened Common
  import opened RigidBodies

  /** One body through `updatePhysics`: static bodies stay; others gain g·dt if they have inverse mass, then move by v·dt. */
  function Integrate(b: RigidBody, gravity: Vec3, dt: real): (r: RigidBody)
    ensures IsStatic(b) ==> r == b
    ensures r.(position := b.position, velocity := b.velocity) == b
  {
    if IsStatic(b) then b
    else
      var v := if b.invMass > 0.0 then b.velocity.Add(gravity.Scale(dt)) else b.velocity;
      b.(velocity := v, position := b.position.Add(v.Scale(dt)))
  }

  /** A dynamic body without inverse mass keeps its velocity and drifts by it; one with inverse mass gains exactly g·dt. */
  lemma IntegrateMeaning(b: RigidBody, gravity: Vec3, dt: real)
    requires !IsStatic(b)
    ensures b.invMass <= 0.0 ==> Integrate(b, gravity, dt).velocity == b.velocity
    ensures b.invMass > 0.0 ==> Integrate(b, gravity, dt).velocity.Sub(b.velocity) == gravity.Scale(dt)
    ensures Integrate(b, gravity, dt).position.Sub(b.position) == Integrate(b, gravity, dt).velocity.Scale(dt)
  {
  }

  /** A zero time step changes no body. */
  lemma ZeroStepIsIdentity(b: RigidBody, gravity: Vec3)
    ensures Integrate(b, gravity, 0.0) == b
  {
    if !IsStatic(b) {
      var v := Integrate(b, gravity, 0.0).velocity;
      assert gravity.Scale(0.0) == Zero;
      assert v == b.velocity;
      assert v.Scale(0.0) == Zero;
    }
  }

  /** `getRigidBody` on the worker's list: element `id − 1` for `1 ≤ id ≤ size` once initialized, else null. */
  function PositionalLookup(initialized: bool, bodies: seq<RigidBody>): (lookup: nat -> Option<RigidBody>)
    ensures forall id: nat :: lookup(id).Some? <==> initialized && 1 <= id <= |bodies|
    ensures forall id: nat :: initialized && 1 <= id <= |bodies| ==> lookup(id) == Some(bodies[id - 1])
  {
    (id: nat) => if !initialized || id == 0 || |bodies| == 0 then None
                 else if id <= |bodies| then Some(bodies[id - 1]) else None
  }

  class RigidBodyWorker {
    var initialized: bool
    var maxRigidBodies: nat
    var nextId: nat
    var bodies: seq<RigidBody>
    var freeIds: seq<nat>
    var gravity: Vec3

    /** Ids are never 0: the counter starts at 1 and every stacked id lies below it. */
    ghost predicate Valid()
      reads this
    {
      1 <= nextId && forall k :: 0 <= k < |freeIds| ==> 1 <= freeIds[k] < nextId
    }

    /** The constructor: uninitialized, room for 512 bodies, ids from 1, Earth gravity. */
    constructor ()
      ensures Valid()
      ensures !initialized && maxRigidBodies == 512 && nextId == 1 && bodies == [] && freeIds == []
      ensures gravity == Vec3(0.0, -9.81, 0.0)
    {
      initialized := false;
      maxRigidBodies := 512;
      nextId := 1;
      bodies := [];
      freeIds := [];
      gravity := Vec3(0.0, -9.81, 0.0);
    }

    /** `initialize`: a no-op once initialized; otherwise empties the list and the stack and restarts ids at 1. */
    method Initialize() returns (ok: bool)
      requires Valid()
      modifies this
      ensures Valid() && ok && initialized
      ensures old(initialized) ==> unchanged(this)
      ensures !old(initialized) ==> bodies == [] && freeIds == [] && nextId == 1
      ensures maxRigidBodies == old(maxRigidBodies) && gravity == old(gravity)
    {
      if initialized {
        return true;
      }
      bodies := [];
      freeIds := [];
      nextId := 1;
      initialized := true;
      ok := true;
    }

    /** `cleanup`: empties the list and the stack and marks the worker uninitialized; the counter stays. */
    method Cleanup()
      requires Valid()
      modifies this
      ensures Valid() && !initialized && bodies == [] && freeIds == []
      ensures nextId == old(nextId) && maxRigidBodies == old(maxRigidBodies) && gravity == old(gravity)
    {
      bodies := [];
      freeIds := [];
      initialized := false;
    }

    /**
     * `addRigidBody`: 0 when uninitialized. Otherwise an id is taken — the
     * most recently freed one or the next from the counter — before the
     * capacity check, so a full worker answers 0 and the id is lost.
     */
    method AddRigidBody(body: RigidBody) returns (id: nat)
      requires Valid()
      modifies this
      ensures Valid()
      ensures initialized == old(initialized) && maxRigidBodies == old(maxRigidBodies) && gravity == old(gravity)
      ensures !old(initialized) ==> id == 0 && unchanged(this)
      ensures old(initialized) && old(freeIds) != [] ==>
                freeIds == old(freeIds)[..|old(freeIds)| - 1] && nextId == old(nextId)
      ensures old(initialized) && old(freeIds) == [] ==> freeIds == [] && nextId == old(nextId) + 1
      ensures old(initialized) && |old(bodies)| >= maxRigidBodies ==> id == 0 && bodies == old(bodies)
      ensures old(initialized) && |old(bodies)| < maxRigidBodies ==>
                bodies == old(bodies) + [body] && 1 <= id
                && id == (if old(freeIds) != [] then old(freeIds)[|old(freeIds)| - 1] else old(nextId))
    {
      if !initialized {
        return 0;
      }
      var taken: nat;
      if freeIds != [] {
        taken := freeIds[|freeIds| - 1];
        freeIds := freeIds[..|freeIds| - 1];
      } else {
        taken := nextId;
        nextId := nextId + 1;
      }
      if |bodies| >= maxRigidBodies {
        return 0;
      }
      bodies := bodies + [body];
      id := taken;
    }

    /**
     * `removeRigidBody`: false when uninitialized, for id 0 and for ids the
     * counter has not reached. Otherwise the search matches every body, so the
     * FIRST body is erased whatever `bodyId` is, and the id is stacked; the
     * answer is whether there was a body to erase.
     */
    method RemoveRigidBody(bodyId: nat) returns (removed: bool)
      requires Valid()
      modifies this
      ensures Valid()
      ensures initialized == old(initialized) && nextId == old(nextId)
      ensures maxRigidBodies == old(maxRigidBodies) && gravity == old(gravity)
      ensures removed <==> old(initialized) && 1 <= bodyId < old(nextId) && old(bodies) != []
      ensures removed ==> bodies == old(bodies)[1..] && freeIds == old(freeIds) + [bodyId]
      ensures !removed ==> bodies == old(bodies) && freeIds == old(freeIds)
    {
      if !initialized || bodyId == 0 || bodyId >= nextId {
        return false;
      }
      if bodies != [] {
        bodies := bodies[1..];
        freeIds := freeIds + [bodyId];
        return true;
      }
      return false;
    }

    /** `getRigidBody`: positional, element `id − 1` for `1 ≤ id ≤ size`, null otherwise or when uninitialized. */
    function GetRigidBody(bodyId: nat): (r: Option<RigidBody>)
      reads this
      ensures r.Some? <==> initialized && 1 <= bodyId <= |bodies|
      ensures r.Some? ==> r.value == bodies[bodyId - 1]
    {
      PositionalLookup(initialized, bodies)(bodyId)
    }

    /**
     * `updatePhysics`: a no-op when uninitialized; otherwise every body in
     * turn goes through one integration step, in place.
     */
    method UpdatePhysics(dt: real)
      requires Valid()
      modifies this
      ensures Valid()
      ensures !old(initialized) ==> bodies == old(bodies)
      ensures old(initialized) ==>
                |bodies| == |old(bodies)| && forall k :: 0 <= k < |bodies| ==> bodies[k] == Integrate(old(bodies)[k], gravity, dt)
      ensures initialized == old(initialized) && nextId == old(nextId) && freeIds == old(freeIds)
      ensures maxRigidBodies == old(maxRigidBodies) && gravity == old(gravity)
    {
      if !initialized {
        return;
      }
      var bs := bodies;
      var i := 0;
      while i < |bs|
        invariant 0 <= i <= |bs| && |bs| == |bodies|
        invariant forall k :: 0 <= k < i ==> bs[k] == Integrate(bodies[k], gravity, dt)
        invariant forall k :: i <= k < |bs| ==> bs[k] == bodies[k]
      {
        bs := bs[i := Integrate(bs[i], gravity, dt)];
        i := i + 1;
      }
      bodies := bs;
    }

    /** `setGravity`. */
    method SetGravity(x: real, y: real, z: real)
      modifies this
      ensures gravity == Vec3(x, y, z)
      ensures initialized == old(initialized) && nextId == old(nextId) && bodies == old(bodies)
      ensures freeIds == old(freeIds) && maxRigidBodies == old(maxRigidBodies)
    {
      gravity := Vec3(x, y, z);
    }

    /** `setMaxRigidBodies`. */
    method SetMaxRigidBodies(maxBodies: nat)
      modifies this
      ensures maxRigidBodies == maxBodies
      ensures initialized == old(initialized) && nextId == old(nextId) && bodies == old(bodies)
      ensures freeIds == old(freeIds) && gravity == old(gravity)
    {
      maxRigidBodies := maxBodies;
    }

    /** `getRigidBodyCount`. */
    function GetRigidBodyCount(): (n: nat)
      reads this
      ensures n == |bodies|
    {
      |bodies|
    }
  }
}
