// The lifecycle shared by the ECS-based physics systems: an initialized and
// an enabled flag, an optional entity filter, the entity count of the last
// update, and the required-component checks on interface entities and on
// ECS entity ids.
module BaseSystem {
  import opened Common
  import Ecs
  import opened ConcreteComponents
  import opened ConcreteEntities

  /** Whether the ECS store holds a component of type `t` for `id`; unknown types never match. */
  ghost predicate EcsOwns(ecs: Ecs.EcsManager, t: ComponentType, id: nat)
    reads ecs
  {
    match t
    case TransformType => ecs.HasTransform(id)
    case PhysicsType => ecs.HasPhysics(id)
    case BoxColliderType => ecs.HasBoxCollider(id)
    case SphereColliderType => false
    case CustomType => false
  }

  /** An active, non-null entity holding every type in `required`. */
  ghost predicate Processable(required: seq<ComponentType>, e: ConcreteEntity?)
    reads e
  {
    e != null && e.active && forall t :: t in required ==> e.HasComponent(t)
  }

  /** The filter lets `e` through, or there is none. */
  ghost predicate Accepts(filter: Option<ConcreteEntity -> bool>, e: ConcreteEntity)
  {
    filter.None? || filter.value(e)
  }

  /** The entities one `update` hands to `processEntity`, in order. */
  ghost function ProcessedBy(required: seq<ComponentType>, filter: Option<ConcreteEntity -> bool>,
                             es: seq<ConcreteEntity?>): seq<ConcreteEntity>
    reads es
  {
    ProcessedUpTo(required, filter, es, |es|)
  }

  /** Those of them among the first `n` entries. */
  ghost function ProcessedUpTo(required: seq<ComponentType>, filter: Option<ConcreteEntity -> bool>,
                               es: seq<ConcreteEntity?>, n: nat): (r: seq<ConcreteEntity>)
    requires n <= |es|
    reads es
    ensures |r| <= n
    decreases n
  {
    if n == 0 then []
    else
      var e := es[n - 1];
      ProcessedUpTo(required, filter, es, n - 1)
        + if Processable(required, e) && Accepts(filter, e) then [e] else []
  }

  class BaseCpuPhysicsSystem {
    /** The shared ECS store; `null` when the system was built without one. */
    const ecs: Ecs.EcsManager?
    /** The derived system's `getRequiredComponents`. */
    const required: seq<ComponentType>
    var initialized: bool
    var enabled: bool
    /** The entity filter; a filter is a fixed selection of entities. */
    var filter: Option<ConcreteEntity -> bool>
    var lastEntityCount: nat

    /** A system is only ever initialized with a store. */
    ghost predicate Valid()
      reads this
    {
      initialized ==> ecs != null
    }

    constructor (ecs: Ecs.EcsManager?, required: seq<ComponentType>)
      ensures Valid()
      ensures this.ecs == ecs && this.required == required
      ensures !initialized && enabled && filter == None && lastEntityCount == 0
    {
      this.ecs := ecs;
      this.required := required;
      initialized := false;
      enabled := true;
      filter := None;
      lastEntityCount := 0;
    }

    /** `validate`: a store is present and the system is initialized. */
    predicate Validate()
      reads this
    {
      ecs != null && initialized
    }

    /** Succeeds exactly when the system validates afterwards; a repeat call changes nothing. */
    method Initialize() returns (ok: bool)
      requires Valid()
      modifies this
      ensures Valid()
      ensures ok == Validate()
      ensures ok <==> old(initialized) || ecs != null
      ensures initialized == ok
      ensures enabled == old(enabled) && filter == old(filter) && lastEntityCount == old(lastEntityCount)
    {
      if initialized {
        return true;
      }
      if ecs == null {
        return false;
      }
      initialized := true;
      ok := true;
    }

    /**
     * Clears both flags, the filter and the statistics of an initialized
     * system; an uninitialized one is left alone.
     */
    method Cleanup()
      requires Valid()
      modifies this
      ensures Valid() && !initialized
      ensures old(initialized) ==> !enabled && filter == None && lastEntityCount == 0
      ensures !old(initialized) ==>
                enabled == old(enabled) && filter == old(filter) && lastEntityCount == old(lastEntityCount)
    {
      if !initialized {
        return;
      }
      enabled := false;
      initialized := false;
      filter := None;
      lastEntityCount := 0;
    }

    /** `reset` is `cleanup`. */
    method Reset()
      requires Valid()
      modifies this
      ensures Valid() && !initialized
      ensures old(initialized) ==> !enabled && filter == None && lastEntityCount == 0
      ensures !old(initialized) ==>
                enabled == old(enabled) && filter == old(filter) && lastEntityCount == old(lastEntityCount)
    {
      Cleanup();
    }

    method SetEnabled(b: bool)
      modifies this
      ensures enabled == b
      ensures initialized == old(initialized) && filter == old(filter) && lastEntityCount == old(lastEntityCount)
    {
      enabled := b;
    }

    method SetEntityFilter(f: ConcreteEntity -> bool)
      modifies this
      ensures filter == Some(f)
      ensures initialized == old(initialized) && enabled == old(enabled) && lastEntityCount == old(lastEntityCount)
    {
      filter := Some(f);
    }

    method ClearEntityFilter()
      modifies this
      ensures filter == None
      ensures initialized == old(initialized) && enabled == old(enabled) && lastEntityCount == old(lastEntityCount)
    {
      filter := None;
    }

    /**
     * The id-less `update`: runs the derived system's `updateInternal`
     * (reported as `ran`) only when initialized and enabled; the entity
     * count recorded is the previous one.
     */
    method Update(dt: real) returns (ran: bool)
      ensures ran == (initialized && enabled)
    {
      ran := initialized && enabled;
    }

    /** `canProcessEntity`: checks the required types in order, stopping at the first missing one. */
    method CanProcessEntity(e: ConcreteEntity?) returns (b: bool)
      ensures b == Processable(required, e)
    {
      if e == null || !e.active {
        return false;
      }
      var i := 0;
      while i < |required|
        invariant i <= |required|
        invariant forall k :: 0 <= k < i ==> e.HasComponent(required[k])
      {
        if !e.HasComponent(required[i]) {
          return false;
        }
        i := i + 1;
      }
      b := true;
    }

    /**
     * `update(entities)`: when initialized and enabled, hands every
     * processable entity the filter accepts to the derived `processEntity`
     * (returned as `processed`) and records how many; otherwise nothing
     * happens.
     */
    method UpdateEntities(es: seq<ConcreteEntity?>, dt: real) returns (processed: seq<ConcreteEntity>)
      modifies this
      ensures initialized == old(initialized) && enabled == old(enabled) && filter == old(filter)
      ensures !(initialized && enabled) ==> processed == [] && lastEntityCount == old(lastEntityCount)
      ensures initialized && enabled ==> processed == ProcessedBy(required, filter, es) && lastEntityCount == |processed|
    {
      processed := [];
      if !initialized || !enabled {
        return;
      }
      var i := 0;
      while i < |es|
        invariant i <= |es|
        invariant unchanged(this)
        invariant processed == ProcessedUpTo(required, filter, es, i)
      {
        var e := es[i];
        var can := CanProcessEntity(e);
        if can && (filter.None? || filter.value(e)) {
          processed := processed + [e];
        }
        i := i + 1;
      }
      lastEntityCount := |processed|;
    }

    /** Every required type is one of the three stored in the ECS store, and `id` has it. */
    ghost predicate HasRequired(id: nat)
      reads this, ecs
    {
      ecs != null && forall t :: t in required ==> EcsOwns(ecs, t, id)
    }

    /** `entityHasRequiredComponents`: false without a store or for an unknown required type. */
    method EntityHasRequiredComponents(id: nat) returns (b: bool)
      ensures b == HasRequired(id)
    {
      if ecs == null {
        return false;
      }
      var i := 0;
      while i < |required|
        invariant i <= |required|
        invariant forall k :: 0 <= k < i ==> EcsOwns(ecs, required[k], id)
      {
        var t := required[i];
        var has: bool;
        match t {
          case TransformType => has := ecs.HasTransform(id);
          case PhysicsType => has := ecs.HasPhysics(id);
          case BoxColliderType => has := ecs.HasBoxCollider(id);
          case _ => has := false;
        }
        if !has {
          assert t in required && !EcsOwns(ecs, t, id);
          return false;
        }
        i := i + 1;
      }
      b := true;
    }

    /**
     * `getEntitiesWithRequiredComponents`: the transform owners, in the
     * store's order, that hold every required type; empty without a store
     * or when no type is required.
     */
    method GetEntitiesWithRequiredComponents() returns (ids: seq<nat>)
      ensures ecs == null || required == [] ==> ids == []
      ensures NoDup(ids)
      ensures ecs != null && required != [] ==>
                forall e :: e in ids <==> ecs.HasTransform(e) && HasRequired(e)
    {
      if ecs == null || required == [] {
        return [];
      }
      var ks := ecs.EntitiesWithTransform();
      ghost var keep := set e | e in ks && HasRequired(e);
      ids := [];
      var i := 0;
      while i < |ks|
        invariant i <= |ks|
        invariant ids == Filter(ks[..i], keep)
      {
        var e := ks[i];
        FilterSnoc(ks[..i], e, keep);
        assert ks[..i + 1] == ks[..i] + [e];
        var has := EntityHasRequiredComponents(e);
        if has {
          ids := ids + [e];
        }
        i := i + 1;
      }
      assert ks[..i] == ks;
      FilterNoDup(ks, keep);
      FilterMembers(ks, keep);
    }
  }

  /** An entity is processed exactly when it is in the list, processable and accepted. */
  lemma ProcessedByMembers(required: seq<ComponentType>, filter: Option<ConcreteEntity -> bool>,
                           es: seq<ConcreteEntity?>)
    ensures forall e :: e in ProcessedBy(required, filter, es) <==>
                          e in es && Processable(required, e) && Accepts(filter, e)
  {
    ProcessedUpToMembers(required, filter, es, |es|);
    assert es[..|es|] == es;
  }

  lemma {:induction false} ProcessedUpToMembers(required: seq<ComponentType>, filter: Option<ConcreteEntity -> bool>,
                                                es: seq<ConcreteEntity?>, n: nat)
    requires n <= |es|
    ensures forall e :: e in ProcessedUpTo(required, filter, es, n) <==>
                          e in es[..n] && Processable(required, e) && Accepts(filter, e)
    decreases n
  {
    if n > 0 {
      ProcessedUpToMembers(required, filter, es, n - 1);
      assert es[..n] == es[..n - 1] + [es[n - 1]];
    }
  }

  /** Without a filter, the processed entities are exactly the processable ones. */
  lemma NoFilterProcessesEveryProcessable(required: seq<ComponentType>, es: seq<ConcreteEntity?>)
    ensures forall e :: e in ProcessedBy(required, None, es) <==> e in es && Processable(required, e)
  {
    ProcessedByMembers(required, None, es);
  }
}
