// The stateless component factory of the ECS engine: builders that return
// fresh component records, the validators the entity factory runs before it
// stores anything, and the in-place updates of a component passed by
// reference (modelled as functions returning the updated record).
module ComponentFactory {
  import opened Common
  import opened Components

  /**
   * The inverse-mass rule of this factory: zero for a static body or a
   * non-positive mass, otherwise the reciprocal of the mass.
   */
  ghost predicate MassRule(p: Physics)
  {
    p.invMass == if p.isStatic then 0.0 else InverseMassOf(p.mass)
  }

  /** What the rule means: 0 for static or massless bodies, else the reciprocal. */
  lemma MassRuleMeaning(p: Physics)
    requires MassRule(p)
    ensures p.isStatic || p.mass <= 0.0 ==> p.invMass == 0.0
    ensures !p.isStatic && p.mass > 0.0 ==> p.invMass * p.mass == 1.0 && p.invMass > 0.0
  {
    if !p.isStatic && p.mass > 0.0 {
      InverseMassIsReciprocal(p.mass);
    }
  }

  function CreateTransformComponent(x: real, y: real, z: real, sx: real, sy: real, sz: real): (t: Transform)
    ensures t.position == Vec3(x, y, z) && t.scale == Vec3(sx, sy, sz)
    ensures t.rotation == IdentityQuat
  {
    Transform(Vec3(x, y, z), IdentityQuat, Vec3(sx, sy, sz))
  }

  /** The rotation a new transform starts with is a unit quaternion. */
  lemma CreatedRotationIsUnit(x: real, y: real, z: real, sx: real, sy: real, sz: real)
    ensures CreateTransformComponent(x, y, z, sx, sy, sz).rotation.NormSq() == 1.0
  {
  }

  /** Recomputes `invMass` from `mass` and `isStatic`; every other field is kept. */
  function CalculateInverseMass(p: Physics): (r: Physics)
    ensures MassRule(r)
    ensures r == p.(invMass := r.invMass)
  {
    p.(invMass := if p.isStatic || p.mass <= 0.0 then 0.0 else 1.0 / p.mass)
  }

  function CreatePhysicsComponent(mass: real, isStatic: bool, useGravity: bool,
                                  restitution: real, friction: real): (p: Physics)
    ensures p.velocity == Zero && p.angularVelocity == Zero
    ensures p.mass == mass && p.isStatic == isStatic && p.useGravity == useGravity
    ensures p.restitution == restitution && p.friction == friction
    ensures MassRule(p)
  {
    CalculateInverseMass(Physics(Zero, Zero, mass, 0.0, restitution, friction, isStatic, useGravity))
  }

  function CreateBoxColliderComponent(width: real, height: real, depth: real, enabled: bool): (c: BoxCollider)
    ensures c.Dims() == Vec3(width, height, depth) && c.enabled == enabled
  {
    BoxCollider(width, height, depth, enabled)
  }

  function CreateTransformAt(x: real, y: real, z: real): (t: Transform)
    ensures t == CreateTransformComponent(x, y, z, 1.0, 1.0, 1.0)
  {
    CreateTransformComponent(x, y, z, 1.0, 1.0, 1.0)
  }

  function CreateStaticPhysics(): (p: Physics)
    ensures p.mass == 0.0 && p.invMass == 0.0 && p.isStatic && !p.useGravity
    ensures p.restitution == 0.3 && p.friction == 0.8
  {
    CreatePhysicsComponent(0.0, true, false, 0.3, 0.8)
  }

  function CreateDynamicPhysics(mass: real): (p: Physics)
    ensures p.mass == mass && !p.isStatic && p.useGravity
    ensures p.restitution == 0.5 && p.friction == 0.3
    ensures p.invMass == InverseMassOf(mass)
  {
    CreatePhysicsComponent(mass, false, true, 0.5, 0.3)
  }

  function CreateBoxCollider(width: real, height: real, depth: real): (c: BoxCollider)
    ensures c == CreateBoxColliderComponent(width, height, depth, true)
  {
    CreateBoxColliderComponent(width, height, depth, true)
  }

  // The finiteness tests of the validators hold for every real and are not
  // written out.

  predicate ValidateTransformComponent(t: Transform)
  {
    t.scale.x > 0.0 && t.scale.y > 0.0 && t.scale.z > 0.0
  }

  predicate ValidatePhysicsComponent(p: Physics)
  {
    p.mass >= 0.0
    && 0.0 <= p.restitution <= 1.0
    && 0.0 <= p.friction <= 1.0
  }

  predicate ValidateBoxColliderComponent(c: BoxCollider)
  {
    c.width > 0.0 && c.height > 0.0 && c.depth > 0.0
  }

  function SetTransformPosition(t: Transform, x: real, y: real, z: real): (r: Transform)
    ensures r.position == Vec3(x, y, z) && r.rotation == t.rotation && r.scale == t.scale
    ensures ValidateTransformComponent(r) == ValidateTransformComponent(t)
  {
    t.(position := Vec3(x, y, z))
  }

  function SetTransformScale(t: Transform, sx: real, sy: real, sz: real): (r: Transform)
    ensures r.position == t.position && r.rotation == t.rotation && r.scale == Vec3(sx, sy, sz)
    ensures ValidateTransformComponent(r) <==> sx > 0.0 && sy > 0.0 && sz > 0.0
  {
    t.(scale := Vec3(sx, sy, sz))
  }

  function SetPhysicsVelocity(p: Physics, vx: real, vy: real, vz: real): (r: Physics)
    ensures r == p.(velocity := Vec3(vx, vy, vz))
    ensures ValidatePhysicsComponent(r) == ValidatePhysicsComponent(p)
    ensures MassRule(r) == MassRule(p)
  {
    p.(velocity := Vec3(vx, vy, vz))
  }

  /** Stores a new mass and re-establishes the inverse-mass rule for it. */
  function UpdatePhysicsMass(p: Physics, mass: real): (r: Physics)
    ensures r.mass == mass && MassRule(r)
    ensures r == p.(mass := mass, invMass := r.invMass)
  {
    CalculateInverseMass(p.(mass := mass))
  }

  /** The convenience builders produce components their validators accept. */
  lemma BuildersValidate(x: real, y: real, z: real, w: real, h: real, d: real, m: real)
    ensures ValidateTransformComponent(CreateTransformAt(x, y, z))
    ensures ValidatePhysicsComponent(CreateStaticPhysics())
    ensures m >= 0.0 ==> ValidatePhysicsComponent(CreateDynamicPhysics(m))
    ensures w > 0.0 && h > 0.0 && d > 0.0 ==> ValidateBoxColliderComponent(CreateBoxCollider(w, h, d))
  {
  }

  /** Exactly the negative masses and the out-of-range materials are rejected. */
  lemma PhysicsValidatorRejects(p: Physics)
    ensures !ValidatePhysicsComponent(p) <==>
              p.mass < 0.0 || p.restitution < 0.0 || p.restitution > 1.0
              || p.friction < 0.0 || p.friction > 1.0
  {
  }

  /** Updating the mass twice is updating it once to the second value. */
  lemma UpdatePhysicsMassTwice(p: Physics, m1: real, m2: real)
    ensures UpdatePhysicsMass(UpdatePhysicsMass(p, m1), m2) == UpdatePhysicsMass(p, m2)
  {
  }
}
