// The GPU-layout rigid body record shared by the slot store, the factory, the
// workers and the narrow phase, with its shape codes, the contact and pair
// records the collision phases exchange, and the mass and inertia rules the
// shape builders apply.
module RigidBodies {
  import opened Common
  import opened Components

  /** `RigidBodyShape`. */
  const SphereShape: nat := 0
  const BoxShape: nat := 1
  const CapsuleShape: nat := 2
  const PlaneShape: nat := 3

  /** `shapeData[4]`: a radius, three half-extents, or a plane's normal and offset. */
  datatype ShapeData = ShapeData(d0: real, d1: real, d2: real, d3: real)

  /** `struct RigidBody`; the padding is left out. */
  datatype RigidBody = RigidBody(
    position: Vec3,
    velocity: Vec3,
    angularVelocity: Vec3,
    rotation: Quat,
    mass: real,
    invMass: real,
    inertia: Vec3,
    invInertia: Vec3,
    restitution: real,
    friction: real,
    shapeType: nat,
    shapeData: ShapeData,
    isStatic: nat,
    layer: nat)

  /** `struct Contact`: contact point, normal, depth, the two body ids and the combined material. */
  datatype Contact = Contact(
    position: Vec3, normal: Vec3, penetration: real,
    bodyIdA: nat, bodyIdB: nat, restitution: real, friction: real)

  /** `struct CollisionPair`. */
  datatype CollisionPair = CollisionPair(bodyIdA: nat, bodyIdB: nat, isActive: nat)

  /** A body after `memset(0)` or `RigidBody body = {}`. */
  function ZeroBody(): (b: RigidBody)
    ensures b.shapeType == SphereShape && b.isStatic == 0 && b.mass == 0.0 && b.invMass == 0.0
  {
    RigidBody(Zero, Zero, Zero, Quat(0.0, 0.0, 0.0, 0.0), 0.0, 0.0, Zero, Zero, 0.0, 0.0,
              SphereShape, ShapeData(0.0, 0.0, 0.0, 0.0), 0, 0)
  }

  /** The source tests `isStatic` as a C truth value. */
  predicate IsStatic(b: RigidBody)
  {
    b.isStatic != 0
  }

  /** `invMass = mass > 0 ? 1 / mass : 0`: the reciprocal of a positive mass, otherwise 0. */
  ghost predicate MassRule(b: RigidBody)
  {
    (b.mass > 0.0 ==> b.invMass * b.mass == 1.0) && (b.mass <= 0.0 ==> b.invMass == 0.0)
  }

  // ---------------------------------------------------------------- inertia

  /** The diagonal inertia tensor and its inverse, as the builders store them. */
  datatype Inertia = Inertia(moments: Vec3, inverse: Vec3)

  const NoInertia := Inertia(Zero, Zero)

  /** `(2/5)·m·r²`, the moment of a solid sphere about any axis. */
  function SphereMoment(mass: real, radius: real): real
  {
    (2.0 / 5.0) * mass * radius * radius
  }

  /** `(m/12)·(a² + b²)`, the moment of a solid box about the axis across sides `a` and `b`. */
  function BoxMoment(mass: real, a: real, b: real): real
  {
    (mass / 12.0) * (a * a + b * b)
  }

  /** The inverse of one moment, and 0 for a vanishing moment, as 0 stands for "no rotation" elsewhere. */
  function InverseMoment(i: real): real
  {
    if i == 0.0 then 0.0 else 1.0 / i
  }

  /** Moments and their inverses, for a positive mass. */
  function FromMoments(m: Vec3): Inertia
  {
    Inertia(m, Vec3(InverseMoment(m.x), InverseMoment(m.y), InverseMoment(m.z)))
  }

  /** `calculateSphereInertia` with the vanishing moment guarded (a massless body has none). */
  function SphereInertia(mass: real, radius: real): Inertia
  {
    if mass <= 0.0 then NoInertia
    else
      var i := SphereMoment(mass, radius);
      FromMoments(Vec3(i, i, i))
  }

  /** `calculateBoxInertia` from the full width, height and depth, with vanishing moments guarded. */
  function BoxInertia(mass: real, width: real, height: real, depth: real): Inertia
  {
    if mass <= 0.0 then NoInertia
    else FromMoments(Vec3(BoxMoment(mass, height, depth), BoxMoment(mass, width, depth), BoxMoment(mass, width, height)))
  }

  /** `calculateSphereInertia` as written: `1 / I` is taken even when `I` is 0, which is `None` here. */
  function SphereInertiaAsWritten(mass: real, radius: real): Option<Inertia>
  {
    if mass <= 0.0 then Some(NoInertia)
    else
      var i := SphereMoment(mass, radius);
      if i == 0.0 then None else Some(Inertia(Vec3(i, i, i), Vec3(1.0 / i, 1.0 / i, 1.0 / i)))
  }

  /** `calculateBoxInertia` as written: `1 / I` is taken on every axis, `None` when one of them is 0. */
  function BoxInertiaAsWritten(mass: real, width: real, height: real, depth: real): Option<Inertia>
  {
    if mass <= 0.0 then Some(NoInertia)
    else
      var m := Vec3(BoxMoment(mass, height, depth), BoxMoment(mass, width, depth), BoxMoment(mass, width, height));
      if m.x == 0.0 || m.y == 0.0 || m.z == 0.0 then None
      else Some(Inertia(m, Vec3(1.0 / m.x, 1.0 / m.y, 1.0 / m.z)))
  }

  /** A positive mass times a square is positive exactly when the side is not zero. */
  lemma MomentSign(mass: real, k: real, a: real)
    requires mass > 0.0 && k > 0.0
    ensures k * mass * a * a >= 0.0
    ensures k * mass * a * a == 0.0 <==> a == 0.0
  {
    var km := k * mass;
    assert km > 0.0;
    if a != 0.0 {
      SquareAbove(a, 0.0);
      assert km * a * a == km * (a * a);
    } else {
      assert km * a * a == km * 0.0 * 0.0;
    }
  }

  /** A box moment under a positive mass is non-negative and vanishes only when both sides do. */
  lemma BoxMomentSign(mass: real, a: real, b: real)
    requires mass > 0.0
    ensures BoxMoment(mass, a, b) >= 0.0
    ensures BoxMoment(mass, a, b) == 0.0 <==> a == 0.0 && b == 0.0
  {
    var k := mass / 12.0;
    assert k > 0.0;
    SquareNonNeg(a);
    SquareNonNeg(b);
    var s := a * a + b * b;
    if a != 0.0 {
      SquareAbove(a, 0.0);
    } else if b != 0.0 {
      SquareAbove(b, 0.0);
    } else {
      assert s == 0.0 * 0.0 + 0.0 * 0.0;
    }
    assert s >= 0.0;
    assert s == 0.0 <==> a == 0.0 && b == 0.0;
    if s > 0.0 {
      assert k * s > 0.0;
    } else {
      assert k * s == k * 0.0;
    }
  }

  /** Every stored moment times its stored inverse is 1 unless the moment is 0, whose inverse is then 0. */
  lemma FromMomentsInverse(m: Vec3)
    ensures var r := FromMoments(m);
            (m.x != 0.0 ==> r.inverse.x * m.x == 1.0) && (m.x == 0.0 ==> r.inverse.x == 0.0)
            && (m.y != 0.0 ==> r.inverse.y * m.y == 1.0) && (m.y == 0.0 ==> r.inverse.y == 0.0)
            && (m.z != 0.0 ==> r.inverse.z * m.z == 1.0) && (m.z == 0.0 ==> r.inverse.z == 0.0)
  {
  }

  /**
   * Sphere inertia: nothing for a massless body; otherwise the same
   * non-negative moment on every axis, positive unless the radius is 0, and
   * an inverse that multiplies it to 1.
   */
  lemma SphereInertiaMeaning(mass: real, radius: real)
    ensures mass <= 0.0 ==> SphereInertia(mass, radius) == NoInertia
    ensures var r := SphereInertia(mass, radius);
            mass > 0.0 ==>
              r.moments.x == r.moments.y == r.moments.z == SphereMoment(mass, radius) >= 0.0
              && (r.moments.x > 0.0 <==> radius != 0.0)
              && (radius != 0.0 ==> r.inverse.x * r.moments.x == 1.0 && r.inverse == Vec3(r.inverse.x, r.inverse.x, r.inverse.x))
  {
    if mass > 0.0 {
      MomentSign(mass, 2.0 / 5.0, radius);
      FromMomentsInverse(SphereInertia(mass, radius).moments);
    }
  }

  /**
   * Box inertia: nothing for a massless body; otherwise the three moments are
   * non-negative, an axis's moment vanishes only when both sides across it are
   * 0, and each non-vanishing moment times its inverse is 1.
   */
  lemma BoxInertiaMeaning(mass: real, width: real, height: real, depth: real)
    ensures mass <= 0.0 ==> BoxInertia(mass, width, height, depth) == NoInertia
    ensures var r := BoxInertia(mass, width, height, depth);
            mass > 0.0 ==>
              r.moments == Vec3(BoxMoment(mass, height, depth), BoxMoment(mass, width, depth), BoxMoment(mass, width, height))
              && r.moments.x >= 0.0 && r.moments.y >= 0.0 && r.moments.z >= 0.0
              && (r.moments.x == 0.0 <==> height == 0.0 && depth == 0.0)
              && (r.moments.y == 0.0 <==> width == 0.0 && depth == 0.0)
              && (r.moments.z == 0.0 <==> width == 0.0 && height == 0.0)
              && (r.moments.x != 0.0 ==> r.inverse.x * r.moments.x == 1.0)
              && (r.moments.y != 0.0 ==> r.inverse.y * r.moments.y == 1.0)
              && (r.moments.z != 0.0 ==> r.inverse.z * r.moments.z == 1.0)
  {
    if mass > 0.0 {
      BoxMomentSign(mass, height, depth);
      BoxMomentSign(mass, width, depth);
      BoxMomentSign(mass, width, height);
      FromMomentsInverse(BoxInertia(mass, width, height, depth).moments);
    }
  }

  /** A cube has the same moment about every axis. */
  lemma CubeInertiaIsUniform(mass: real, side: real)
    requires mass > 0.0
    ensures var r := BoxInertia(mass, side, side, side);
            r.moments.x == r.moments.y == r.moments.z
  {
  }

  /**
   * The sphere routine as written divides by zero exactly for a positive
   * mass and a zero radius; wherever it is defined it agrees with the guarded one.
   */
  lemma SphereInertiaAsWrittenAgrees(mass: real, radius: real)
    ensures SphereInertiaAsWritten(mass, radius).None? <==> mass > 0.0 && radius == 0.0
    ensures SphereInertiaAsWritten(mass, radius).Some? ==> SphereInertiaAsWritten(mass, radius).value == SphereInertia(mass, radius)
  {
    if mass > 0.0 {
      MomentSign(mass, 2.0 / 5.0, radius);
    }
  }

  /**
   * The box routine as written divides by zero exactly for a positive mass
   * and two zero sides; wherever it is defined it agrees with the guarded one.
   */
  lemma BoxInertiaAsWrittenAgrees(mass: real, width: real, height: real, depth: real)
    ensures BoxInertiaAsWritten(mass, width, height, depth).None? <==>
              mass > 0.0 && ((height == 0.0 && depth == 0.0) || (width == 0.0 && depth == 0.0) || (width == 0.0 && height == 0.0))
    ensures BoxInertiaAsWritten(mass, width, height, depth).Some? ==>
              BoxInertiaAsWritten(mass, width, height, depth).value == BoxInertia(mass, width, height, depth)
  {
    if mass > 0.0 {
      BoxMomentSign(mass, height, depth);
      BoxMomentSign(mass, width, depth);
      BoxMomentSign(mass, width, height);
    }
  }

  /** `createSphere(x, y, z, 0)` with the default mass 1: the source computes `1 / 0`; the guarded rule stores 0. */
  lemma ZeroRadiusSphereDividesByZero()
    ensures SphereInertiaAsWritten(1.0, 0.0) == None
    ensures SphereInertia(1.0, 0.0) == Inertia(Zero, Zero)
  {
    SphereInertiaAsWrittenAgrees(1.0, 0.0);
    assert SphereMoment(1.0, 0.0) == 0.0;
  }

  /** A flat 1 × 0 × 0 box of mass 1: the source computes `1 / 0` about the width axis. */
  lemma FlatBoxDividesByZero()
    ensures BoxInertiaAsWritten(1.0, 1.0, 0.0, 0.0) == None
    ensures BoxInertia(1.0, 1.0, 0.0, 0.0).inverse.x == 0.0
  {
    BoxInertiaAsWrittenAgrees(1.0, 1.0, 0.0, 0.0);
    assert BoxMoment(1.0, 0.0, 0.0) == 0.0;
  }

  // ---------------------------------------------------------------- shape builders

  /** The inverse mass rule: the reciprocal of a positive mass satisfies `MassRule`. */
  lemma InverseMassRule(b: RigidBody)
    requires b.invMass == InverseMassOf(b.mass)
    ensures MassRule(b)
  {
    if b.mass > 0.0 {
      InverseMassIsReciprocal(b.mass);
    }
  }

  /**
   * A dynamic sphere: a zeroed body with the given centre, identity rotation,
   * the mass and inverse-mass rule, radius in `shapeData[0]`, sphere inertia,
   * the given material and layer. The inertia is the source's wherever its
   * `1 / I` is defined; for a zero radius under a positive mass, where the
   * source stores `1 / 0`, the guarded 0 is stored instead.
   */
  function SphereBody(center: Vec3, radius: real, mass: real, restitution: real, friction: real, layer: nat): (b: RigidBody)
    ensures b.shapeType == SphereShape && b.shapeData == ShapeData(radius, 0.0, 0.0, 0.0)
    ensures b.position == center && b.velocity == Zero && b.angularVelocity == Zero && b.rotation == IdentityQuat
    ensures b.mass == mass && b.invMass == InverseMassOf(mass) && !IsStatic(b)
    ensures b.inertia == SphereInertia(mass, radius).moments && b.invInertia == SphereInertia(mass, radius).inverse
    ensures SphereInertiaAsWritten(mass, radius).Some? ==>
              b.inertia == SphereInertiaAsWritten(mass, radius).value.moments
              && b.invInertia == SphereInertiaAsWritten(mass, radius).value.inverse
    ensures SphereInertiaAsWritten(mass, radius).None? ==> b.inertia == Zero && b.invInertia == Zero
    ensures b.restitution == restitution && b.friction == friction && b.layer == layer
  {
    SphereInertiaAsWrittenAgrees(mass, radius);
    var i := SphereInertia(mass, radius);
    ZeroBody().(position := center, rotation := IdentityQuat, mass := mass, invMass := InverseMassOf(mass),
                shapeType := SphereShape, shapeData := ShapeData(radius, 0.0, 0.0, 0.0),
                restitution := restitution, friction := friction, inertia := i.moments, invInertia := i.inverse,
                layer := layer)
  }

  /**
   * A dynamic box: as a sphere, but with the half-extents `(w/2, h/2, d/2)`
   * in `shapeData` and box inertia from the full sides. On an axis whose
   * moment vanishes, where the source stores `1 / 0`, the inverse stored is 0.
   */
  function BoxBody(center: Vec3, width: real, height: real, depth: real, mass: real,
                   restitution: real, friction: real, layer: nat): (b: RigidBody)
    ensures b.shapeType == BoxShape && b.shapeData == ShapeData(width / 2.0, height / 2.0, depth / 2.0, 0.0)
    ensures b.position == center && b.velocity == Zero && b.angularVelocity == Zero && b.rotation == IdentityQuat
    ensures b.mass == mass && b.invMass == InverseMassOf(mass) && !IsStatic(b)
    ensures b.inertia == BoxInertia(mass, width, height, depth).moments
    ensures b.invInertia == BoxInertia(mass, width, height, depth).inverse
    ensures BoxInertiaAsWritten(mass, width, height, depth).Some? ==>
              b.inertia == BoxInertiaAsWritten(mass, width, height, depth).value.moments
              && b.invInertia == BoxInertiaAsWritten(mass, width, height, depth).value.inverse
    ensures b.inertia.x == 0.0 ==> b.invInertia.x == 0.0
    ensures b.inertia.y == 0.0 ==> b.invInertia.y == 0.0
    ensures b.inertia.z == 0.0 ==> b.invInertia.z == 0.0
    ensures b.restitution == restitution && b.friction == friction && b.layer == layer
  {
    BoxInertiaAsWrittenAgrees(mass, width, height, depth);
    var i := BoxInertia(mass, width, height, depth);
    ZeroBody().(position := center, rotation := IdentityQuat, mass := mass, invMass := InverseMassOf(mass),
                shapeType := BoxShape, shapeData := ShapeData(width * 0.5, height * 0.5, depth * 0.5, 0.0),
                restitution := restitution, friction := friction, inertia := i.moments, invInertia := i.inverse,
                layer := layer)
  }

  /** Every sphere and box built here keeps the mass rule, and a massless one has no inertia. */
  lemma BuiltBodiesKeepMassRule(center: Vec3, a: real, b: real, c: real, mass: real, e: real, f: real, layer: nat)
    ensures MassRule(SphereBody(center, a, mass, e, f, layer)) && MassRule(BoxBody(center, a, b, c, mass, e, f, layer))
    ensures mass <= 0.0 ==> SphereBody(center, a, mass, e, f, layer).inertia == Zero
                            && SphereBody(center, a, mass, e, f, layer).invInertia == Zero
                            && BoxBody(center, a, b, c, mass, e, f, layer).inertia == Zero
                            && BoxBody(center, a, b, c, mass, e, f, layer).invInertia == Zero
  {
    InverseMassRule(SphereBody(center, a, mass, e, f, layer));
    InverseMassRule(BoxBody(center, a, b, c, mass, e, f, layer));
  }
}
