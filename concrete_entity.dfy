// A concrete entity: an id, an active flag, a physics layer, an opaque user
// handle and at most one component object per component type.
module ConcreteEntities {
  import opened Common
  import opened Components
  import ComponentFactory
  import opened ConcreteComponents

  class ConcreteEntity {
    const entityId: nat
    var active: bool
    var physicsLayer: nat
    /** The `void*` user pointer as an opaque handle; `None` is `nullptr`. */
    var userData: Option<nat>
    var components: map<ComponentType, ConcreteComponent>

    /** Every component is stored under its own type. */
    ghost predicate Valid()
      reads this, components.Values
    {
      forall t :: t in components ==> components[t].GetType() == t
    }

    /** Every stored component validates. */
    ghost predicate AllValidate()
      reads this, components.Values
    {
      forall t :: t in components ==> components[t].Validate()
    }

    constructor (id: nat)
      ensures Valid()
      ensures entityId == id && active && physicsLayer == 0 && userData == None
      ensures components == map[]
    {
      entityId := id;
      active := true;
      physicsLayer := 0;
      userData := None;
      components := map[];
    }

    method SetActive(b: bool)
      modifies this
      ensures active == b
      ensures physicsLayer == old(physicsLayer) && userData == old(userData) && components == old(components)
    {
      active := b;
    }

    method SetPhysicsLayer(layer: nat)
      modifies this
      ensures physicsLayer == layer
      ensures active == old(active) && userData == old(userData) && components == old(components)
    {
      physicsLayer := layer;
    }

    method SetUserData(u: Option<nat>)
      modifies this
      ensures userData == u
      ensures active == old(active) && physicsLayer == old(physicsLayer) && components == old(components)
    {
      userData := u;
    }

    /**
     * Takes ownership of `c` unless it is null or a component of its type is
     * already stored; an existing component is never overwritten.
     */
    method AddComponent(c: ConcreteComponent?) returns (ok: bool)
      requires Valid()
      modifies this
      ensures Valid()
      ensures ok <==> c != null && c.GetType() !in old(components)
      ensures components == if ok then old(components)[c.GetType() := c] else old(components)
      ensures active == old(active) && physicsLayer == old(physicsLayer) && userData == old(userData)
    {
      if c == null {
        return false;
      }
      var t := c.GetType();
      if t in components {
        return false;
      }
      components := components[t := c];
      ok := true;
    }

    method RemoveComponent(t: ComponentType) returns (ok: bool)
      requires Valid()
      modifies this
      ensures Valid()
      ensures ok == (t in old(components)) && !HasComponent(t)
      ensures components == old(components) - {t}
      ensures active == old(active) && physicsLayer == old(physicsLayer) && userData == old(userData)
    {
      ok := t in components;
      if ok {
        components := components - {t};
      }
    }

    /** The stored component of type `t`, or null. */
    function GetComponent(t: ComponentType): (r: ConcreteComponent?)
      reads this, components.Values
      ensures r != null <==> HasComponent(t)
      ensures r != null ==> r == components[t] && (Valid() ==> r.GetType() == t)
    {
      if t in components then components[t] else null
    }

    predicate HasComponent(t: ComponentType)
      reads this
    {
      t in components
    }

    function GetComponentCount(): nat
      reads this
    {
      |components|
    }

    /** The stored components, each once, in hash-table order. */
    method GetAllComponents() returns (list: seq<ConcreteComponent>)
      requires Valid()
      ensures |list| == GetComponentCount()
      ensures forall c :: c in list <==> c in components.Values
      ensures NoDup(list)
    {
      var types := KeysInIterationOrder(components);
      list := ValuesAlong(components, types);
      forall t1, t2 | t1 in components && t2 in components && t1 != t2
        ensures components[t1] != components[t2]
      {
        assert components[t1].GetType() != components[t2].GetType();
      }
      ListedValues(components, types, list);
    }

    /** True exactly when every stored component validates; stops at the first failure. */
    method Validate() returns (ok: bool)
      ensures ok == AllValidate()
    {
      var types := KeysInIterationOrder(components);
      var i := 0;
      while i < |types|
        invariant i <= |types|
        invariant forall k :: 0 <= k < i ==> components[types[k]].Validate()
      {
        if !components[types[i]].Validate() {
          return false;
        }
        i := i + 1;
      }
      forall t | t in components
        ensures components[t].Validate()
      {
        var k :| 0 <= k < |types| && types[k] == t;
      }
      ok := true;
    }

    /** Drops every component and restores the constructor's defaults. */
    method Reset()
      modifies this
      ensures Valid()
      ensures components == map[] && active && physicsLayer == 0 && userData == None
    {
      components := map[];
      active := true;
      physicsLayer := 0;
      userData := None;
    }

    /**
     * A new entity with the same id, flags, layer and user handle, holding a
     * fresh clone of every component under the same type.
     */
    method Clone() returns (e: ConcreteEntity)
      requires Valid()
      ensures fresh(e) && e.Valid()
      ensures e.entityId == entityId && e.active == active
      ensures e.physicsLayer == physicsLayer && e.userData == userData
      ensures e.components.Keys == components.Keys
      ensures forall t :: t in components ==>
                fresh(e.components[t]) && e.components[t].data == components[t].data.Cloned()
    {
      var clones := CloneAll();
      e := new ConcreteEntity(entityId);
      e.active, e.physicsLayer, e.userData, e.components := active, physicsLayer, userData, clones;
    }

    /** The loop of `clone`: a fresh clone of every stored component, visited in the table's unspecified order. */
    method CloneAll() returns (clones: map<ComponentType, ConcreteComponent>)
      requires Valid()
      ensures clones.Keys == components.Keys
      ensures forall t :: t in clones ==> fresh(clones[t]) && clones[t].GetType() == t
      ensures forall t :: t in clones ==> clones[t].data == components[t].data.Cloned()
    {
      clones := map[];
      var rest := components.Keys;
      while rest != {}
        invariant rest <= components.Keys && clones.Keys == components.Keys - rest
        invariant forall t :: t in clones ==> fresh(clones[t]) && clones[t].GetType() == t
        invariant forall t :: t in clones ==> clones[t].data == components[t].data.Cloned()
        decreases rest
      {
        var t :| t in rest;
        var c := components[t].Clone();
        clones := clones[t := c];
        rest := rest - {t};
      }
    }
  }

  /** The range-for of `getAllComponents`: the value under each key, in the keys' order. */
  method ValuesAlong<K, V>(m: map<K, V>, keys: seq<K>) returns (list: seq<V>)
    requires forall k :: k in keys ==> k in m
    ensures |list| == |keys| && forall i :: 0 <= i < |keys| ==> list[i] == m[keys[i]]
  {
    list := [];
    var i := 0;
    while i < |keys|
      invariant i <= |keys| && |list| == i
      invariant forall k :: 0 <= k < i ==> list[k] == m[keys[k]]
    {
      list := list + [m[keys[i]]];
      i := i + 1;
    }
  }

  /**
   * Listing the values of a map with distinct values through a duplicate-free
   * list of all its keys lists each value exactly once.
   */
  lemma ListedValues<K, V>(m: map<K, V>, keys: seq<K>, list: seq<V>)
    requires NoDup(keys) && (forall k :: k in m <==> k in keys)
    requires forall k1, k2 :: k1 in m && k2 in m && k1 != k2 ==> m[k1] != m[k2]
    requires |list| == |keys| && forall i :: 0 <= i < |keys| ==> list[i] == m[keys[i]]
    ensures forall v :: v in list <==> v in m.Values
    ensures NoDup(list)
  {
    forall v | v in m.Values
      ensures v in list
    {
      var k :| k in m && m[k] == v;
      var i :| 0 <= i < |keys| && keys[i] == k;
      assert list[i] == v;
    }
    forall i, j | 0 <= i < j < |list|
      ensures list[i] != list[j]
    {
      assert keys[i] != keys[j];
    }
  }

  /** The transform a rigid-body entity starts with: at the given position, unrotated, unit scale. */
  function RigidBodyTransformData(x: real, y: real, z: real): (d: ComponentData)
    ensures d.TransformData? && d.IsEnabled()
  {
    TransformData(Transform(Vec3(x, y, z), Quat(1.0, 0.0, 0.0, 0.0), Vec3(1.0, 1.0, 1.0)), true)
  }

  /**
   * The physics a rigid-body entity starts with: a positive mass is dynamic
   * with gravity and inverse mass 1/m; any other mass is static, without
   * gravity, with inverse mass 0.
   */
  function RigidBodyPhysicsData(mass: real): (d: ComponentData)
    ensures d.PhysicsData? && d.IsEnabled()
  {
    PhysicsData(DefaultPhysics.(mass := mass, invMass := if mass > 0.0 then 1.0 / mass else 0.0,
                                isStatic := mass <= 0.0, useGravity := !(mass <= 0.0)), true)
  }

  function RigidBodyColliderData(width: real, height: real, depth: real): (d: ComponentData)
    ensures d.BoxColliderData? && d.IsEnabled()
  {
    BoxColliderData(BoxCollider(width, height, depth, true))
  }

  /**
   * The starting components are the ones the component factory builds: a
   * transform at the position, physics whose static flag, gravity and
   * inverse mass follow the mass, and an enabled box of the given size.
   */
  lemma RigidBodyDataMatchesFactory(x: real, y: real, z: real, width: real, height: real, depth: real, mass: real)
    ensures RigidBodyTransformData(x, y, z) == TransformData(ComponentFactory.CreateTransformAt(x, y, z), true)
    ensures RigidBodyPhysicsData(mass).physics
              == ComponentFactory.CreatePhysicsComponent(mass, mass <= 0.0, !(mass <= 0.0), 0.5, 0.3)
    ensures RigidBodyPhysicsData(mass).physics.invMass == InverseMassOf(mass)
    ensures RigidBodyColliderData(width, height, depth)
              == BoxColliderData(ComponentFactory.CreateBoxCollider(width, height, depth))
  {
  }

  /** Zero mass gives a static body without gravity and with inverse mass 0. */
  lemma ZeroMassIsStatic()
    ensures RigidBodyPhysicsData(0.0).physics.isStatic
    ensures !RigidBodyPhysicsData(0.0).physics.useGravity
    ensures RigidBodyPhysicsData(0.0).physics.invMass == 0.0
  {
  }

  /** A rigid-body entity's components all validate exactly for positive dimensions and a non-negative mass. */
  lemma RigidBodyDataValidates(x: real, y: real, z: real, width: real, height: real, depth: real, mass: real)
    ensures (RigidBodyTransformData(x, y, z).Validates()
             && RigidBodyPhysicsData(mass).Validates()
             && RigidBodyColliderData(width, height, depth).Validates())
            <==> width > 0.0 && height > 0.0 && depth > 0.0 && mass >= 0.0
  {
    assert RigidBodyTransformData(x, y, z).transform.rotation.NormSq() == 1.0;
  }

  method CreateBasicEntity(id: nat) returns (e: ConcreteEntity)
    ensures fresh(e) && e.Valid()
    ensures e.entityId == id && e.active && e.physicsLayer == 0 && e.userData == None
    ensures e.components == map[]
  {
    e := new ConcreteEntity(id);
  }

  /** An entity holding exactly a transform, a physics and a box collider component. */
  method CreateRigidBodyEntity(id: nat, x: real, y: real, z: real,
                               width: real, height: real, depth: real, mass: real, layer: nat)
    returns (e: ConcreteEntity)
    ensures fresh(e) && e.Valid()
    ensures e.entityId == id && e.active && e.physicsLayer == layer && e.userData == None
    ensures e.components.Keys == {TransformType, PhysicsType, BoxColliderType}
    ensures fresh(e.components[TransformType]) && fresh(e.components[PhysicsType])
    ensures fresh(e.components[BoxColliderType])
    ensures e.components[TransformType].data == RigidBodyTransformData(x, y, z)
    ensures e.components[PhysicsType].data == RigidBodyPhysicsData(mass)
    ensures e.components[BoxColliderType].data == RigidBodyColliderData(width, height, depth)
  {
    e := new ConcreteEntity(id);
    e.SetPhysicsLayer(layer);
    var tc := new ConcreteComponent(RigidBodyTransformData(x, y, z));
    var ok := e.AddComponent(tc);
    assert e.components == map[TransformType := tc];
    var pc := new ConcreteComponent(RigidBodyPhysicsData(mass));
    ok := e.AddComponent(pc);
    assert e.components == map[TransformType := tc, PhysicsType := pc];
    var cc := new ConcreteComponent(RigidBodyColliderData(width, height, depth));
    ok := e.AddComponent(cc);
    assert e.components == map[TransformType := tc, PhysicsType := pc, BoxColliderType := cc];
  }

  /** The zero-mass rigid-body entity: static, without gravity, inverse mass 0. */
  method CreateStaticEntity(id: nat, x: real, y: real, z: real,
                            width: real, height: real, depth: real, layer: nat)
    returns (e: ConcreteEntity)
    ensures fresh(e) && e.Valid()
    ensures e.entityId == id && e.active && e.physicsLayer == layer && e.userData == None
    ensures e.components.Keys == {TransformType, PhysicsType, BoxColliderType}
    ensures e.components[TransformType].data == RigidBodyTransformData(x, y, z)
    ensures e.components[PhysicsType].data == RigidBodyPhysicsData(0.0)
    ensures e.components[BoxColliderType].data == RigidBodyColliderData(width, height, depth)
    ensures e.components[PhysicsType].data.physics.isStatic
    ensures e.components[PhysicsType].data.physics.invMass == 0.0
    ensures !e.components[PhysicsType].data.physics.useGravity
  {
    e := CreateRigidBodyEntity(id, x, y, z, width, height, depth, 0.0, layer);
    ZeroMassIsStatic();
  }
}
