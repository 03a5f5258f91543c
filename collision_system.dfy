// The GPU-side collision system (`CollisionSystem`): candidate pairs from the
// broad phase, contacts from the narrow phase looked up in the slot store, and
// the worker variant (`DetectCollisionWorker`) that looks bodies up in the
// physics manager's rigid body worker.
module CollisionSystems {
  import opened Common
  import opened RigidBodies
  import opened Pairs
  import RigidBodyStore
  import RigidBodyWorkers
  import BroadPhase
  import NarrowPhase

  class CollisionSystem {
    var contacts: seq<Contact>
    var collisionPairs: seq<CollisionPair>
    var maxContacts: nat
    var contactCount: nat

    /** The constructor: no capacity, no contacts, no pairs. */
    constructor ()
      ensures contacts == [] && collisionPairs == [] && maxContacts == 0 && contactCount == 0
    {
      contacts := [];
      collisionPairs := [];
      maxContacts := 0;
      contactCount := 0;
    }

    /** `initialize`: sets the contact capacity; always succeeds. */
    method Initialize(capacity: nat) returns (ok: bool)
      modifies this
      ensures ok && maxContacts == capacity
      ensures contacts == old(contacts) && collisionPairs == old(collisionPairs) && contactCount == old(contactCount)
    {
      maxContacts := capacity;
      ok := true;
    }

    /** `cleanup`: drops the contacts and the pairs; the contact counter is left as it was. */
    method Cleanup()
      modifies this
      ensures contacts == [] && collisionPairs == []
      ensures maxContacts == old(maxContacts) && contactCount == old(contactCount)
    {
      contacts := [];
      collisionPairs := [];
    }

    /** `updateBroadPhase`: the pairs are replaced by the candidates over `bodies` under the max-radius test. */
    method UpdateBroadPhase(bodies: seq<RigidBody>)
      modifies this
      ensures collisionPairs == BroadPhase.Tagged(AllPairs(Range(0, |bodies|), BroadPhase.Candidate(bodies, false)))
      ensures contacts == old(contacts) && maxContacts == old(maxContacts) && contactCount == old(contactCount)
    {
      collisionPairs := BroadPhase.UpdateBroadPhase(bodies);
    }

    /**
     * `detectCollisions`: the contacts are replaced by those of the stored
     * pairs, bodies looked up by slot in the store, at most `maxContacts`;
     * the counter ends equal to their number, and each names two slots.
     */
    method DetectCollisions(store: RigidBodyStore.RigidBodySystem, sqrt: real -> real)
      modifies this
      ensures contacts == NarrowPhase.Detected(collisionPairs, RigidBodyStore.SlotLookup(store.slots), maxContacts, sqrt, |collisionPairs|)
      ensures contactCount == |contacts| <= maxContacts
      ensures forall c :: c in contacts ==> c.bodyIdA < |store.slots| && c.bodyIdB < |store.slots|
      ensures collisionPairs == old(collisionPairs) && maxContacts == old(maxContacts)
    {
      var found, count := NarrowPhase.DetectCollisions(collisionPairs, RigidBodyStore.SlotLookup(store.slots), maxContacts, sqrt);
      StoreContactsNameSlots(collisionPairs, store.slots, maxContacts, sqrt);
      contacts, contactCount := found, count;
    }

    /** `getContactCount`. */
    function GetContactCount(): (n: nat)
      reads this
      ensures n == contactCount
    {
      contactCount
    }

    /** `getCollisionPairCount`. */
    function GetCollisionPairCount(): (n: nat)
      reads this
      ensures n == |collisionPairs|
    {
      |collisionPairs|
    }
  }

  /** Looked up in a slot store, every contact names two existing slots, in the order of its pair. */
  lemma StoreContactsNameSlots(pairs: seq<CollisionPair>, slots: seq<RigidBody>, maxContacts: nat, sqrt: real -> real)
    ensures forall c :: c in NarrowPhase.Detected(pairs, RigidBodyStore.SlotLookup(slots), maxContacts, sqrt, |pairs|) ==>
              c.bodyIdA < |slots| && c.bodyIdB < |slots|
              && exists k :: 0 <= k < |pairs| && c.bodyIdA == pairs[k].bodyIdA && c.bodyIdB == pairs[k].bodyIdB
  {
    var lookup := RigidBodyStore.SlotLookup(slots);
    var found := NarrowPhase.Detected(pairs, lookup, maxContacts, sqrt, |pairs|);
    NarrowPhase.DetectedSound(pairs, lookup, maxContacts, sqrt, |pairs|);
    forall c | c in found
      ensures c.bodyIdA < |slots| && c.bodyIdB < |slots|
              && exists k :: 0 <= k < |pairs| && c.bodyIdA == pairs[k].bodyIdA && c.bodyIdB == pairs[k].bodyIdB
    {
      var m :| 0 <= m < |found| && found[m] == c;
      var k :| 0 <= k < |pairs| && NarrowPhase.PairContact(pairs[k], lookup, sqrt) == Some(c);
    }
  }

  /**
   * `DetectCollisionWorker::detectCollisions`: the same loop with bodies
   * looked up positionally in the worker (element `id − 1`). The worker
   * header it includes is not part of this model; it is taken to be the
   * `RigidBodyWorker` modelled in `RigidBodyWorkers`.
   */
  method DetectWithWorker(pairs: seq<CollisionPair>, worker: RigidBodyWorkers.RigidBodyWorker, maxContacts: nat,
                          sqrt: real -> real) returns (contacts: seq<Contact>, contactCount: nat)
    ensures contacts == NarrowPhase.Detected(pairs, RigidBodyWorkers.PositionalLookup(worker.initialized, worker.bodies),
                                             maxContacts, sqrt, |pairs|)
    ensures contactCount == |contacts| <= maxContacts
    ensures !worker.initialized ==> contacts == []
  {
    contacts, contactCount := NarrowPhase.DetectCollisions(pairs, RigidBodyWorkers.PositionalLookup(worker.initialized, worker.bodies),
                                                           maxContacts, sqrt);
    if !worker.initialized {
      UninitializedWorkerFindsNothing(pairs, worker.bodies, maxContacts, sqrt, |pairs|);
    }
  }

  /** Through the worker's positional lookup, a pair naming id 0 never yields a contact. */
  lemma WorkerSkipsIdZero(p: CollisionPair, initialized: bool, bodies: seq<RigidBody>, sqrt: real -> real)
    requires p.bodyIdA == 0 || p.bodyIdB == 0
    ensures NarrowPhase.PairContact(p, RigidBodyWorkers.PositionalLookup(initialized, bodies), sqrt) == None
  {
  }

  /** An uninitialized worker finds no body, so no pair yields a contact. */
  lemma UninitializedWorkerFindsNothing(pairs: seq<CollisionPair>, bodies: seq<RigidBody>, maxContacts: nat,
                                        sqrt: real -> real, n: nat)
    requires n <= |pairs|
    ensures NarrowPhase.Detected(pairs, RigidBodyWorkers.PositionalLookup(false, bodies), maxContacts, sqrt, n) == []
  {
    NothingFoundNothingDetected(pairs, RigidBodyWorkers.PositionalLookup(false, bodies), maxContacts, sqrt, n);
  }

  /** A lookup that finds no body yields no contact for any prefix of the pairs: every stored contact has a source pair. */
  lemma NothingFoundNothingDetected(pairs: seq<CollisionPair>, lookup: nat -> Option<RigidBody>,
                                    maxContacts: nat, sqrt: real -> real, n: nat)
    requires n <= |pairs|
    requires forall id: nat :: lookup(id) == None
    ensures NarrowPhase.Detected(pairs, lookup, maxContacts, sqrt, n) == []
  {
    var found := NarrowPhase.Detected(pairs, lookup, maxContacts, sqrt, n);
    NarrowPhase.DetectedSound(pairs, lookup, maxContacts, sqrt, n);
    if found != [] {
      var k :| 0 <= k < n && NarrowPhase.PairContact(pairs[k], lookup, sqrt) == Some(found[0]);
      assert false;
    }
  }

  /**
   * The plane the slot store builds as written keeps the sphere shape code
   * with radius 0, so the narrow phase treats it as a point at (0, y, 0): a
   * unit sphere centred on that point is pushed sideways along (1, 0, 0), and
   * one sunk halfway through the plane five units away is not touched.
   */
  lemma StoredPlaneActsAsPoint(centred: RigidBody, aside: RigidBody, y: real, sqrt: real -> real)
    requires sqrt(0.0) == 0.0
    requires centred.shapeType == SphereShape && centred.shapeData.d0 == 1.0 && centred.position == Vec3(0.0, y, 0.0)
    requires aside.shapeType == SphereShape && aside.shapeData.d0 == 1.0 && aside.position == Vec3(5.0, y - 0.5, 0.0)
    ensures NarrowPhase.Narrow(RigidBodyStore.StaticPlaneAsBuilt(y), centred, sqrt).Some?
    ensures NarrowPhase.Narrow(RigidBodyStore.StaticPlaneAsBuilt(y), centred, sqrt).value.normal == Vec3(1.0, 0.0, 0.0)
    ensures NarrowPhase.Narrow(RigidBodyStore.StaticPlaneAsBuilt(y), aside, sqrt) == None
  {
    var plane := RigidBodyStore.StaticPlaneAsBuilt(y);
    NarrowPhase.CoincidentSpheres(plane, centred, sqrt);
    assert plane.position.Sub(aside.position) == Vec3(-5.0, 0.5, 0.0);
  }

  /** The corrected plane has the PLANE code, which the narrow phase has no test for. */
  lemma CorrectedPlaneIsNotTested(other: RigidBody, y: real, sqrt: real -> real)
    ensures NarrowPhase.Narrow(RigidBodyStore.StaticPlane(y), other, sqrt) == None
    ensures NarrowPhase.Narrow(other, RigidBodyStore.StaticPlane(y), sqrt) == None
  {
    NarrowPhase.OtherShapesNeverHit(RigidBodyStore.StaticPlane(y), other, sqrt);
    NarrowPhase.OtherShapesNeverHit(other, RigidBodyStore.StaticPlane(y), sqrt);
  }
}
