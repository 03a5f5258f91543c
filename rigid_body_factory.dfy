// The physics manager's rigid body factory (`RigidBodyFactory`): builds
// spheres, boxes, static planes and copies of a template on a given layer,
// each with the factory's current default material.
module RigidBodyFactories {
  import opened Common
  import opened Components
  import opened RigidBodies

  class RigidBodyFactory {
    var defaultRestitution: real
    var defaultFriction: real

    /** The factory starts with the default material 0.3 / 0.7. */
    constructor ()
      ensures GetDefaultMaterial() == (0.3, 0.7)
    {
      defaultRestitution := 0.3;
      defaultFriction := 0.7;
    }

    /** `setDefaultMaterial`: the material every later shape receives. */
    method SetDefaultMaterial(restitution: real, friction: real)
      modifies this
      ensures GetDefaultMaterial() == (restitution, friction)
    {
      defaultRestitution := restitution;
      defaultFriction := friction;
    }

    /** `getDefaultMaterial`: restitution and friction, as last stored. */
    function GetDefaultMaterial(): (material: (real, real))
      reads this
    {
      (defaultRestitution, defaultFriction)
    }

    /** `createSphere`: a dynamic sphere of the given radius and mass on `layer`, with the default material. */
    function CreateSphere(x: real, y: real, z: real, radius: real, mass: real, layer: nat): (b: RigidBody)
      reads this
      ensures b.shapeType == SphereShape && b.shapeData.d0 == radius && b.position == Vec3(x, y, z)
      ensures b.rotation == IdentityQuat && b.layer == layer && !IsStatic(b)
      ensures b.mass == mass && b.invMass == InverseMassOf(mass)
      ensures SphereInertiaAsWritten(mass, radius).Some? ==>
                b.inertia == SphereInertiaAsWritten(mass, radius).value.moments
                && b.invInertia == SphereInertiaAsWritten(mass, radius).value.inverse
      ensures SphereInertiaAsWritten(mass, radius).None? ==> b.inertia == Zero && b.invInertia == Zero
      ensures (b.restitution, b.friction) == GetDefaultMaterial()
    {
      SphereBody(Vec3(x, y, z), radius, mass, defaultRestitution, defaultFriction, layer)
    }

    /** `createBox`: a dynamic box storing the half-extents, with box inertia and the default material. */
    function CreateBox(x: real, y: real, z: real, width: real, height: real, depth: real, mass: real, layer: nat): (b: RigidBody)
      reads this
      ensures b.shapeType == BoxShape && b.shapeData == ShapeData(width / 2.0, height / 2.0, depth / 2.0, 0.0)
      ensures b.position == Vec3(x, y, z) && b.rotation == IdentityQuat && b.layer == layer && !IsStatic(b)
      ensures b.mass == mass && b.invMass == InverseMassOf(mass)
      ensures b.inertia == BoxInertia(mass, width, height, depth).moments
      ensures BoxInertiaAsWritten(mass, width, height, depth).Some? ==>
                b.invInertia == BoxInertiaAsWritten(mass, width, height, depth).value.inverse
      ensures b.inertia.x == 0.0 ==> b.invInertia.x == 0.0
      ensures b.inertia.y == 0.0 ==> b.invInertia.y == 0.0
      ensures b.inertia.z == 0.0 ==> b.invInertia.z == 0.0
      ensures (b.restitution, b.friction) == GetDefaultMaterial()
    {
      BoxBody(Vec3(x, y, z), width, height, depth, mass, defaultRestitution, defaultFriction, layer)
    }

    /**
     * `createStaticPlane`: an up-facing plane at height `y` — shape PLANE,
     * data (0, 1, 0, y), centre (0, y, 0), static, massless, no inertia.
     */
    function CreateStaticPlane(y: real, layer: nat): (b: RigidBody)
      reads this
      ensures b.shapeType == PlaneShape && b.shapeData == ShapeData(0.0, 1.0, 0.0, y)
      ensures b.position == Vec3(0.0, y, 0.0) && b.rotation == IdentityQuat && b.layer == layer && IsStatic(b)
      ensures b.mass == 0.0 && b.invMass == 0.0 && b.inertia == Zero && b.invInertia == Zero
      ensures (b.restitution, b.friction) == GetDefaultMaterial()
    {
      ZeroBody().(position := Vec3(0.0, y, 0.0), mass := 0.0, invMass := 0.0, layer := layer, isStatic := 1,
                  shapeType := PlaneShape, shapeData := ShapeData(0.0, 1.0, 0.0, y), rotation := IdentityQuat,
                  inertia := Zero, invInertia := Zero, restitution := defaultRestitution, friction := defaultFriction)
    }

    /** `createCustomRigidBody`: the template, moved to `layer`; nothing else changes, not even the material. */
    function CreateCustomRigidBody(template: RigidBody, layer: nat): (b: RigidBody)
      reads this
      ensures b.layer == layer
      ensures b.(layer := template.layer) == template
    {
      template.(layer := layer)
    }

    /** Every body the factory builds obeys the inverse-mass rule; a massless one has no inverse inertia. */
    lemma BuiltBodiesObeyMassRule(x: real, y: real, z: real, a: real, b: real, c: real, mass: real, layer: nat)
      ensures MassRule(CreateSphere(x, y, z, a, mass, layer)) && MassRule(CreateBox(x, y, z, a, b, c, mass, layer))
      ensures MassRule(CreateStaticPlane(y, layer))
      ensures mass <= 0.0 ==> CreateSphere(x, y, z, a, mass, layer).invInertia == Zero
                              && CreateBox(x, y, z, a, b, c, mass, layer).invInertia == Zero
    {
      BuiltBodiesKeepMassRule(Vec3(x, y, z), a, b, c, mass, defaultRestitution, defaultFriction, layer);
    }
  }
}
