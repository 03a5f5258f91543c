// The GPU particle entity store: like the CPU store, but gated by an
// `initialized` flag and bounded by a particle capacity shared by its two
// component tables.
module ParticleEcs {
  import opened Common

  datatype Particle = Particle(position: Vec3, velocity: Vec3, mass: real)

  /** The same record for the table whose particles are offloaded to the CPU. */
  datatype OffloadedParticle = OffloadedParticle(position: Vec3, velocity: Vec3, mass: real)

  const DefaultMaxParticles: nat := 1024

  class ParticleEcsManager {
    var initialized: bool
    var maxParticles: nat
    var nextEntityId: nat
    var entities: seq<nat>
    var particles: map<nat, Particle>
    var offloaded: map<nat, OffloadedParticle>

    function TotalParticleCount(): nat
      reads this
    {
      |particles| + |offloaded|
    }

    /**
     * Nothing is stored while uninitialized; ids are increasing and below the
     * counter; table keys are live; the two tables together never exceed the
     * capacity.
     */
    ghost predicate Valid()
      reads this
    {
      1 <= nextEntityId
      && IdList(entities, nextEntityId)
      && KeysIn(particles, entities)
      && KeysIn(offloaded, entities)
      && (!initialized ==> entities == [] && particles == map[] && offloaded == map[])
      && |particles| + |offloaded| <= maxParticles
    }

    constructor ()
      ensures Valid()
      ensures !initialized && maxParticles == DefaultMaxParticles && nextEntityId == 1
    {
      initialized := false;
      maxParticles := DefaultMaxParticles;
      nextEntityId := 1;
      entities := [];
      particles := map[];
      offloaded := map[];
    }

    /**
     * `reserveFails` stands for the three `reserve(maxParticles)` calls
     * throwing (`length_error` or `bad_alloc` for a huge capacity): the
     * exception is caught, the manager is cleaned up and false is returned.
     * An initialized manager returns true before reserving anything.
     */
    method Initialize(reserveFails: bool) returns (ok: bool)
      requires Valid()
      modifies this
      ensures Valid() && ok == initialized
      ensures ok <==> old(initialized) || !reserveFails
      ensures maxParticles == old(maxParticles)
      ensures ok ==> nextEntityId == old(nextEntityId)
      ensures ok ==> entities == old(entities) && particles == old(particles) && offloaded == old(offloaded)
      ensures !ok ==> nextEntityId == 1 && entities == [] && particles == map[] && offloaded == map[]
    {
      if initialized {
        return true;
      }
      if reserveFails {
        Cleanup();
        return false;
      }
      initialized := true;
      ok := true;
    }

    method Cleanup()
      requires Valid()
      modifies this
      ensures Valid() && !initialized
      ensures entities == [] && particles == map[] && offloaded == map[]
      ensures nextEntityId == 1 && maxParticles == old(maxParticles)
    {
      entities := [];
      particles := map[];
      offloaded := map[];
      nextEntityId := 1;
      initialized := false;
    }

    method Find(id: nat) returns (k: nat)
      ensures k <= |entities|
      ensures k < |entities| ==> entities[k] == id
      ensures forall j :: 0 <= j < k ==> entities[j] != id
      ensures k == |entities| <==> id !in entities
    {
      k := 0;
      while k < |entities| && entities[k] != id
        invariant k <= |entities|
        invariant forall j :: 0 <= j < k ==> entities[j] != id
      {
        k := k + 1;
      }
    }

    /** Returns 0, the invalid id, while uninitialized. */
    method CreateEntity() returns (id: nat)
      requires Valid()
      modifies this
      ensures Valid()
      ensures !initialized ==> id == 0
      ensures old(initialized) ==> id == old(nextEntityId) && id >= 1 && id !in old(entities)
      ensures nextEntityId == if initialized then old(nextEntityId) + 1 else old(nextEntityId)
      ensures entities == if initialized then old(entities) + [id] else old(entities)
      ensures initialized == old(initialized) && maxParticles == old(maxParticles)
      ensures particles == old(particles) && offloaded == old(offloaded)
    {
      if !initialized {
        return 0;
      }
      id := nextEntityId;
      IdListAppend(entities, nextEntityId);
      nextEntityId := nextEntityId + 1;
      entities := entities + [id];
    }

    method DestroyEntity(id: nat) returns (ok: bool)
      requires Valid()
      modifies this
      ensures Valid()
      ensures ok == (initialized && id in old(entities))
      ensures entities == if ok then RemoveFirst(old(entities), id) else old(entities)
      ensures particles == if ok then old(particles) - {id} else old(particles)
      ensures offloaded == if ok then old(offloaded) - {id} else old(offloaded)
      ensures initialized == old(initialized) && maxParticles == old(maxParticles)
      ensures nextEntityId == old(nextEntityId)
    {
      if !initialized {
        return false;
      }
      var k := Find(id);
      ok := k < |entities|;
      var rest, p, o := entities, particles, offloaded;
      if ok {
        EraseAt(entities, nextEntityId, k, id);
        rest := entities[..k] + entities[k + 1..];
        KeysInErase(particles, entities, id, rest);
        KeysInErase(offloaded, entities, id, rest);
        p, o := p - {id}, o - {id};
      }
      entities, particles, offloaded := rest, p, o;
    }

    method IsEntityValid(id: nat) returns (b: bool)
      ensures b == (initialized && id in entities)
    {
      if !initialized {
        return false;
      }
      var k := Find(id);
      b := k < |entities|;
    }

    /**
     * Refused while uninitialized, for a dead id, and whenever the two tables
     * together are already at capacity, even if `id` would only be overwritten.
     */
    method AddParticle(id: nat, c: Particle) returns (ok: bool)
      requires Valid()
      modifies this
      ensures Valid()
      ensures ok == (initialized && id in old(entities) && old(TotalParticleCount()) < maxParticles)
      ensures particles == if ok then old(particles)[id := c] else old(particles)
      ensures offloaded == old(offloaded) && entities == old(entities)
      ensures initialized == old(initialized) && maxParticles == old(maxParticles)
      ensures nextEntityId == old(nextEntityId)
    {
      var live := IsEntityValid(id);
      if !initialized || !live {
        return false;
      }
      if TotalParticleCount() >= maxParticles {
        return false;
      }
      particles := particles[id := c];
      ok := true;
    }

    method AddOffloadedParticle(id: nat, c: OffloadedParticle) returns (ok: bool)
      requires Valid()
      modifies this
      ensures Valid()
      ensures ok == (initialized && id in old(entities) && old(TotalParticleCount()) < maxParticles)
      ensures offloaded == if ok then old(offloaded)[id := c] else old(offloaded)
      ensures particles == old(particles) && entities == old(entities)
      ensures initialized == old(initialized) && maxParticles == old(maxParticles)
      ensures nextEntityId == old(nextEntityId)
    {
      var live := IsEntityValid(id);
      if !initialized || !live {
        return false;
      }
      if TotalParticleCount() >= maxParticles {
        return false;
      }
      offloaded := offloaded[id := c];
      ok := true;
    }

    method RemoveParticle(id: nat) returns (ok: bool)
      requires Valid()
      modifies this
      ensures Valid()
      ensures ok == (initialized && id in old(particles))
      ensures particles == if ok then old(particles) - {id} else old(particles)
      ensures offloaded == old(offloaded) && entities == old(entities)
      ensures initialized == old(initialized) && maxParticles == old(maxParticles)
      ensures nextEntityId == old(nextEntityId)
    {
      if !initialized {
        return false;
      }
      ok := id in particles;
      if ok {
        MapRemoveCard(particles, id);
        particles := particles - {id};
      }
    }

    method RemoveOffloadedParticle(id: nat) returns (ok: bool)
      requires Valid()
      modifies this
      ensures Valid()
      ensures ok == (initialized && id in old(offloaded))
      ensures offloaded == if ok then old(offloaded) - {id} else old(offloaded)
      ensures particles == old(particles) && entities == old(entities)
      ensures initialized == old(initialized) && maxParticles == old(maxParticles)
      ensures nextEntityId == old(nextEntityId)
    {
      if !initialized {
        return false;
      }
      ok := id in offloaded;
      if ok {
        MapRemoveCard(offloaded, id);
        offloaded := offloaded - {id};
      }
    }

    function GetParticle(id: nat): (r: Option<Particle>)
      reads this
      ensures r.Some? <==> HasParticle(id)
      ensures r.Some? ==> r.value == particles[id]
    {
      if initialized && id in particles then Some(particles[id]) else None
    }

    function GetOffloadedParticle(id: nat): (r: Option<OffloadedParticle>)
      reads this
      ensures r.Some? <==> HasOffloadedParticle(id)
      ensures r.Some? ==> r.value == offloaded[id]
    {
      if initialized && id in offloaded then Some(offloaded[id]) else None
    }

    predicate HasParticle(id: nat) reads this { initialized && id in particles }
    predicate HasOffloadedParticle(id: nat) reads this { initialized && id in offloaded }

    method EntitiesWithParticle() returns (ids: seq<nat>)
      ensures NoDup(ids)
      ensures forall e :: e in ids <==> HasParticle(e)
      ensures |ids| == if initialized then |particles| else 0
    {
      if !initialized {
        return [];
      }
      ids := KeysInIterationOrder(particles);
    }

    method EntitiesWithOffloadedParticle() returns (ids: seq<nat>)
      ensures NoDup(ids)
      ensures forall e :: e in ids <==> HasOffloadedParticle(e)
      ensures |ids| == if initialized then |offloaded| else 0
    {
      if !initialized {
        return [];
      }
      ids := KeysInIterationOrder(offloaded);
    }

    /** Regular-table ids first, then offloaded-table ids. */
    method AllParticleEntities() returns (ids: seq<nat>)
      requires Valid()
      ensures |ids| == TotalParticleCount()
      ensures forall e :: e in ids <==> HasParticle(e) || HasOffloadedParticle(e)
      ensures NoDup(ids[..if initialized then |particles| else 0])
      ensures Segmented(ids, |particles|, particles.Keys, offloaded.Keys)
      ensures forall k :: 0 <= k < |ids| ==>
                (k < |particles| ==> ids[k] in particles) && (k >= |particles| ==> ids[k] in offloaded)
    {
      if !initialized {
        TwoSegments([], 0, [], [], {}, {});
        return [];
      }
      var regular := EntitiesWithParticle();
      var cpu := EntitiesWithOffloadedParticle();
      ids := regular + cpu;
      TwoSegments(ids, |particles|, regular, cpu, particles.Keys, offloaded.Keys);
    }

    /** Accepted only while uninitialized. */
    method SetMaxParticles(n: nat) returns (ok: bool)
      requires Valid()
      modifies this
      ensures Valid()
      ensures ok == !old(initialized)
      ensures maxParticles == if ok then n else old(maxParticles)
      ensures initialized == old(initialized) && nextEntityId == old(nextEntityId)
      ensures entities == old(entities) && particles == old(particles) && offloaded == old(offloaded)
    {
      if initialized {
        return false;
      }
      maxParticles := n;
      ok := true;
    }
  }

  /**
   * `ids` is two duplicate-free segments, the first `n` ids naming exactly
   * `a` and the rest exactly `b`.
   */
  ghost predicate Segmented(ids: seq<nat>, n: nat, a: set<nat>, b: set<nat>)
  {
    n <= |ids| && NoDup(ids[..n]) && NoDup(ids[n..]) && Elems(ids[..n]) == a && Elems(ids[n..]) == b
  }

  /**
   * Two duplicate-free key lists laid end to end: each segment names exactly
   * its own key set, and every position holds a key of its segment's set.
   */
  lemma TwoSegments(ids: seq<nat>, n: nat, regular: seq<nat>, cpu: seq<nat>, a: set<nat>, b: set<nat>)
    requires ids == regular + cpu && |regular| == n && NoDup(regular) && NoDup(cpu)
    requires forall e :: e in regular <==> e in a
    requires forall e :: e in cpu <==> e in b
    ensures Segmented(ids, n, a, b)
    ensures forall e :: e in ids <==> e in a || e in b
    ensures forall k :: 0 <= k < |ids| ==> (k < n ==> ids[k] in a) && (k >= n ==> ids[k] in b)
  {
    assert ids[..n] == regular && ids[n..] == cpu;
    forall k | 0 <= k < |ids|
      ensures (k < n ==> ids[k] in a) && (k >= n ==> ids[k] in b)
    {
      if k < n {
        assert ids[k] == regular[k] && regular[k] in regular;
      } else {
        assert ids[k] == cpu[k - n] && cpu[k - n] in cpu;
      }
    }
  }
}
