// The plain component records of the CPU rigid-body ECS, with the default
// values of their member initialisers.
module Components {
  import opened Common

  /** A rotation quaternion, stored (w, x, y, z). */
  datatype Quat = Quat(w: real, x: real, y: real, z: real)
  {
    function NormSq(): real { w * w + x * x + y * y + z * z }
  }

  const IdentityQuat := Quat(1.0, 0.0, 0.0, 0.0)
  const UnitScale := Vec3(1.0, 1.0, 1.0)

  datatype Transform = Transform(position: Vec3, rotation: Quat, scale: Vec3)

  datatype Physics = Physics(
    velocity: Vec3,
    angularVelocity: Vec3,
    mass: real,
    invMass: real,
    restitution: real,
    friction: real,
    isStatic: bool,
    useGravity: bool)

  datatype BoxCollider = BoxCollider(width: real, height: real, depth: real, enabled: bool)
  {
    /** The dimensions as a vector, in the order the collision code indexes them. */
    function Dims(): Vec3 { Vec3(width, height, depth) }
  }

  /** The legacy all-in-one record handed out by the engine wrappers. */
  datatype RigidBodyRecord = RigidBodyRecord(
    entityId: nat,
    transform: Transform,
    physics: Physics,
    collider: BoxCollider,
    layer: nat,
    hasCollider: bool)

  const DefaultTransform := Transform(Zero, IdentityQuat, UnitScale)
  const DefaultPhysics := Physics(Zero, Zero, 1.0, 1.0, 0.5, 0.3, false, true)
  const DefaultBoxCollider := BoxCollider(1.0, 1.0, 1.0, true)

  /**
   * The mass rule that several constructors of the source share: a positive
   * mass gives a dynamic body with gravity and inverse mass 1/m, anything
   * else a static body without gravity and inverse mass 0.
   */
  function InverseMassOf(mass: real): (r: real)
    ensures mass > 0.0 ==> r > 0.0
    ensures mass <= 0.0 ==> r == 0.0
  {
    if mass > 0.0 then 1.0 / mass else 0.0
  }

  /** For a positive mass the inverse mass is its reciprocal. */
  lemma InverseMassIsReciprocal(mass: real)
    requires mass > 0.0
    ensures InverseMassOf(mass) * mass == 1.0
  {
  }
}
