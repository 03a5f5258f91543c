// The polymorphic component objects a concrete entity owns: one object per
// component, whose state is one of the three concrete kinds (transform,
// physics, box collider) together with its enabled flag.
module ConcreteComponents {
  import opened Common
  import opened Components
  import ComponentFactory

  /** The component type tag of the component interface. */
  datatype ComponentType = TransformType | PhysicsType | BoxColliderType | SphereColliderType | CustomType

  /**
   * The state of a concrete component. The transform and physics kinds keep
   * their own enabled flag beside the record; the box collider uses the
   * record's `enabled` field.
   */
  datatype ComponentData =
    | TransformData(transform: Transform, enabled: bool)
    | PhysicsData(physics: Physics, enabled: bool)
    | BoxColliderData(collider: BoxCollider)
  {
    /** `getType`: fixed by the concrete kind. */
    function Type(): (t: ComponentType)
      ensures t == TransformType <==> TransformData?
      ensures t == PhysicsType <==> PhysicsData?
      ensures t == BoxColliderType <==> BoxColliderData?
    {
      match this
      case TransformData(_, _) => TransformType
      case PhysicsData(_, _) => PhysicsType
      case BoxColliderData(_) => BoxColliderType
    }

    /** `isEnabled`. */
    predicate IsEnabled()
    {
      match this
      case TransformData(_, e) => e
      case PhysicsData(_, e) => e
      case BoxColliderData(c) => c.enabled
    }

    /** `setEnabled`: only the enabled flag changes. */
    function WithEnabled(b: bool): (r: ComponentData)
      ensures r.Type() == Type() && r.IsEnabled() == b
    {
      match this
      case TransformData(t, _) => TransformData(t, b)
      case PhysicsData(p, _) => PhysicsData(p, b)
      case BoxColliderData(c) => BoxColliderData(c.(enabled := b))
    }

    /**
     * `validate`. The NaN tests of the source hold for every real and are
     * not written out.
     */
    predicate Validates()
    {
      match this
      case TransformData(t, _) =>
        t.scale.x > 0.0 && t.scale.y > 0.0 && t.scale.z > 0.0
        && 0.9 < t.rotation.NormSq() < 1.1
      case PhysicsData(p, _) =>
        p.mass >= 0.0
        && 0.0 <= p.restitution <= 1.0
        && p.friction >= 0.0
        && (p.isStatic ==> p.invMass == 0.0)
        && (!p.isStatic && p.mass > 0.0 ==> p.invMass > 0.0)
      case BoxColliderData(c) =>
        c.width > 0.0 && c.height > 0.0 && c.depth > 0.0
    }

    /** `reset`: the kind is kept, and the component is enabled again. */
    function Reset(): (r: ComponentData)
      ensures r.Type() == Type() && r.IsEnabled()
    {
      match this
      case TransformData(_, _) =>
        TransformData(Transform(Vec3(0.0, 0.0, 0.0), Quat(1.0, 0.0, 0.0, 0.0), Vec3(1.0, 1.0, 1.0)), true)
      case PhysicsData(_, _) =>
        PhysicsData(Physics(Vec3(0.0, 0.0, 0.0), Vec3(0.0, 0.0, 0.0), 1.0, 1.0, 0.5, 0.3, false, true), true)
      case BoxColliderData(_) =>
        BoxColliderData(BoxCollider(1.0, 1.0, 1.0, true))
    }

    /**
     * `clone`: a new object built from the record alone. The box collider's
     * flag lives in its record and is copied; the other two kinds start
     * enabled, whatever the original's flag.
     */
    function Cloned(): (r: ComponentData)
      ensures r.Type() == Type()
    {
      match this
      case TransformData(t, _) => TransformData(t, true)
      case PhysicsData(p, _) => PhysicsData(p, true)
      case BoxColliderData(c) => BoxColliderData(c)
    }
  }

  /** Setting the flag back to its old value restores the component. */
  lemma WithEnabledRoundTrip(d: ComponentData, b: bool)
    ensures d.WithEnabled(b).WithEnabled(d.IsEnabled()) == d
    ensures d.WithEnabled(b).WithEnabled(b) == d.WithEnabled(b)
  {
  }

  /** The enabled flag plays no part in validation. */
  lemma EnabledIgnoredByValidate(d: ComponentData, b: bool)
    ensures d.WithEnabled(b).Validates() == d.Validates()
  {
  }

  /** Reset restores the records' member-initialiser defaults ... */
  lemma ResetIsDefault(d: ComponentData)
    ensures d.TransformData? ==> d.Reset() == TransformData(DefaultTransform, true)
    ensures d.PhysicsData? ==> d.Reset() == PhysicsData(DefaultPhysics, true)
    ensures d.BoxColliderData? ==> d.Reset() == BoxColliderData(DefaultBoxCollider)
  {
  }

  /** ... so it depends on the kind alone, is idempotent ... */
  lemma ResetForgetsState(d: ComponentData, e: ComponentData)
    ensures d.Type() == e.Type() ==> d.Reset() == e.Reset()
    ensures d.Reset().Reset() == d.Reset()
  {
  }

  /** ... and always yields a component that validates. */
  lemma ResetValidates(d: ComponentData)
    ensures d.Reset().Validates()
  {
    match d
    case TransformData(_, _) =>
      assert d.Reset().transform.rotation.NormSq() == 1.0;
    case PhysicsData(_, _) =>
    case BoxColliderData(_) =>
  }

  /** A clone equals its original except that it is enabled unless it is a box collider. */
  lemma ClonedIsCopy(d: ComponentData)
    ensures d.BoxColliderData? || d.IsEnabled() ==> d.Cloned() == d
    ensures !d.BoxColliderData? ==> d.Cloned() == d.WithEnabled(true)
  {
  }

  /** A clone validates exactly when its original does. */
  lemma ClonedValidates(d: ComponentData)
    ensures d.Cloned().Validates() == d.Validates()
  {
    ClonedIsCopy(d);
    EnabledIgnoredByValidate(d, true);
  }

  /**
   * The concrete transform check is the component factory's scale check plus
   * the quaternion-norm tolerance.
   */
  lemma TransformValidateVsFactory(t: Transform, b: bool)
    ensures TransformData(t, b).Validates() <==>
              ComponentFactory.ValidateTransformComponent(t) && 0.9 < t.rotation.NormSq() < 1.1
  {
  }

  /**
   * A physics record the factory accepts and whose inverse mass follows the
   * factory's rule passes the concrete check; the converse fails only on
   * friction above 1, which the concrete check allows.
   */
  lemma PhysicsValidateVsFactory(p: Physics, b: bool)
    ensures (ComponentFactory.ValidatePhysicsComponent(p) && ComponentFactory.MassRule(p))
              ==> PhysicsData(p, b).Validates()
    ensures (PhysicsData(p, b).Validates() && p.friction <= 1.0)
              ==> ComponentFactory.ValidatePhysicsComponent(p)
  {
    if ComponentFactory.MassRule(p) {
      ComponentFactory.MassRuleMeaning(p);
    }
  }

  /** The concrete box check is the factory's box check. */
  lemma BoxValidateVsFactory(c: BoxCollider)
    ensures BoxColliderData(c).Validates() == ComponentFactory.ValidateBoxColliderComponent(c)
  {
  }

  /** A component object: the interface's virtual calls dispatch on `data`'s kind. */
  class ConcreteComponent {
    var data: ComponentData

    constructor (d: ComponentData)
      ensures data == d
    {
      data := d;
    }

    function GetType(): ComponentType
      reads this
    {
      data.Type()
    }

    predicate IsEnabled()
      reads this
    {
      data.IsEnabled()
    }

    predicate Validate()
      reads this
    {
      data.Validates()
    }

    method SetEnabled(b: bool)
      modifies this
      ensures data == old(data).WithEnabled(b)
      ensures IsEnabled() == b && GetType() == old(GetType())
    {
      data := data.WithEnabled(b);
    }

    method Reset()
      modifies this
      ensures data == old(data).Reset()
      ensures IsEnabled() && GetType() == old(GetType())
    {
      data := data.Reset();
    }

    method Clone() returns (c: ConcreteComponent)
      ensures fresh(c) && c.data == data.Cloned()
      ensures c.GetType() == GetType()
    {
      c := new ConcreteComponent(data.Cloned());
    }
  }
}
