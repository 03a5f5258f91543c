// The narrow phase of the GPU-side collision pipeline, written once for its
// two copies (`CollisionSystem` and `DetectCollisionWorker`): sphere–sphere,
// sphere–box and axis-aligned box–box tests, the material combiners, the
// dispatch on shape codes, and the loop that turns candidate pairs into at
// most `maxContacts` contacts.
module NarrowPhase {
  import opened Common
  import opened RigidBodies

  /** What a shape test writes into its `Contact&` when it reports a hit. */
  datatype Hit = Hit(position: Vec3, normal: Vec3, penetration: real)

  /** `shapeData[0..2]` read as half-extents. */
  function HalfExtents(b: RigidBody): Vec3
  {
    Vec3(b.shapeData.d0, b.shapeData.d1, b.shapeData.d2)
  }

  /** `d / dist` for a positive distance, otherwise the fallback direction. */
  function Direction(d: Vec3, dist: real, fallback: Vec3): Vec3
  {
    if dist > 0.0 then Vec3(d.x / dist, d.y / dist, d.z / dist) else fallback
  }

  /**
   * The test both sphere routines share: `d` runs from the reference point to
   * the sphere centre and `reach` is how far the sphere reaches. No hit when
   * |d|² ≥ reach²; otherwise the normal is `d / |d|` (the fallback when |d| is
   * 0) and the depth is `reach − |d|`.
   */
  function Separation(d: Vec3, reach: real, sqrt: real -> real, fallback: Vec3): Option<(Vec3, real)>
  {
    var distSq := d.LengthSq();
    if distSq >= reach * reach then None
    else
      var dist := sqrt(distSq);
      Some((Direction(d, dist, fallback), reach - dist))
  }

  /** `sphereVsSphere`: the separation of A's centre from B's, against the radius sum; the contact lies on A's surface. */
  function SphereVsSphere(a: RigidBody, b: RigidBody, sqrt: real -> real): Option<Hit>
  {
    var s := Separation(a.position.Sub(b.position), a.shapeData.d0 + b.shapeData.d0, sqrt, Vec3(1.0, 0.0, 0.0));
    if s.None? then None
    else Some(Hit(a.position.Sub(s.value.0.Scale(a.shapeData.d0)), s.value.0, s.value.1))
  }

  /** `std::max(lo, std::min(p, hi))` on one axis. */
  function Clamp(p: real, center: real, half: real): real
  {
    MaxR(center - half, MinR(p, center + half))
  }

  /** The point of the box nearest to `p`, clamped axis by axis. */
  function Closest(p: Vec3, center: Vec3, half: Vec3): Vec3
  {
    Vec3(Clamp(p.x, center.x, half.x), Clamp(p.y, center.y, half.y), Clamp(p.z, center.z, half.z))
  }

  /** Distance from `p` to each face pair of the box: `half − |p − center|` per axis. */
  function FaceDistances(p: Vec3, center: Vec3, half: Vec3): Vec3
  {
    Vec3(half.x - Abs(p.x - center.x), half.y - Abs(p.y - center.y), half.z - Abs(p.z - center.z))
  }

  /** ±1 on one axis, + exactly when `above`, and 0 elsewhere. */
  function SignedAxis(axis: nat, above: bool): Vec3
    requires axis < 3
  {
    AxisVec(axis, if above then 1.0 else -1.0)
  }

  /** A centre inside the box is pushed out through the nearest face: ±1 on that axis, + when it lies above the box centre. */
  function InsideNormal(p: Vec3, center: Vec3, half: Vec3): Vec3
  {
    var axis := MinAxis(FaceDistances(p, center, half));
    SignedAxis(axis, p.At(axis) > center.At(axis))
  }

  /** `sphereVsBox`: the separation of the centre from the clamped point, against the radius; the contact is the clamped point. */
  function SphereVsBox(sphere: RigidBody, box: RigidBody, sqrt: real -> real): Option<Hit>
  {
    var half := HalfExtents(box);
    var c := Closest(sphere.position, box.position, half);
    var s := Separation(sphere.position.Sub(c), sphere.shapeData.d0, sqrt, InsideNormal(sphere.position, box.position, half));
    if s.None? then None else Some(Hit(c, s.value.0, s.value.1))
  }

  /** Per-axis overlap of two boxes: `(halfA + halfB) − |centreA − centreB|`. */
  function Overlaps(a: RigidBody, b: RigidBody): Vec3
  {
    var ha, hb := HalfExtents(a), HalfExtents(b);
    Vec3(ha.x + hb.x - Abs(a.position.x - b.position.x),
         ha.y + hb.y - Abs(a.position.y - b.position.y),
         ha.z + hb.z - Abs(a.position.z - b.position.z))
  }

  /**
   * `boxVsBox`: no hit if some axis overlap is ≤ 0; otherwise the axis of
   * least overlap (the first on ties), ±1 on it (+ when A lies above B), the
   * midpoint of the centres and the least overlap as depth.
   */
  function BoxVsBox(a: RigidBody, b: RigidBody): Option<Hit>
  {
    var o := Overlaps(a, b);
    if o.x <= 0.0 || o.y <= 0.0 || o.z <= 0.0 then None
    else
      var axis := MinAxis(o);
      var n := SignedAxis(axis, a.position.At(axis) > b.position.At(axis));
      Some(Hit(a.position.Add(b.position).Scale(0.5), n, o.At(axis)))
  }

  /** `combinedRestitution`: the average. */
  function CombinedRestitution(restA: real, restB: real): real
  {
    (restA + restB) * 0.5
  }

  /** `combinedFriction`: the geometric mean. */
  function CombinedFriction(sqrt: real -> real, fricA: real, fricB: real): real
  {
    sqrt(fricA * fricB)
  }

  /** A sphere–box hit seen from the box: the normal reversed. */
  function Flipped(h: Option<Hit>): Option<Hit>
  {
    if h.None? then None else Some(h.value.(normal := h.value.normal.Neg()))
  }

  /**
   * The dispatch on shape codes: sphere–sphere, sphere–box in either order
   * (the sphere tested first, the normal reversed when the box came first),
   * box–box; every other combination has no test and no hit.
   */
  function Narrow(a: RigidBody, b: RigidBody, sqrt: real -> real): Option<Hit>
  {
    if a.shapeType == SphereShape && b.shapeType == SphereShape then SphereVsSphere(a, b, sqrt)
    else if a.shapeType == SphereShape && b.shapeType == BoxShape then SphereVsBox(a, b, sqrt)
    else if a.shapeType == BoxShape && b.shapeType == SphereShape then Flipped(SphereVsBox(b, a, sqrt))
    else if a.shapeType == BoxShape && b.shapeType == BoxShape then BoxVsBox(a, b)
    else None
  }

  /**
   * The contact a candidate pair yields, ignoring capacity: none if either
   * body is not found or the shapes do not touch; otherwise the hit with the
   * pair's ids in pair order and the combined material.
   */
  function PairContact(p: CollisionPair, lookup: nat -> Option<RigidBody>, sqrt: real -> real): Option<Contact>
  {
    var a, b := lookup(p.bodyIdA), lookup(p.bodyIdB);
    if a.None? || b.None? then None
    else
      var h := Narrow(a.value, b.value, sqrt);
      if h.None? then None
      else Some(Contact(h.value.position, h.value.normal, h.value.penetration, p.bodyIdA, p.bodyIdB,
                        CombinedRestitution(a.value.restitution, b.value.restitution),
                        CombinedFriction(sqrt, a.value.friction, b.value.friction)))
  }

  /** The contacts of the first `n` pairs, each appended while fewer than `maxContacts` are stored. */
  function Detected(pairs: seq<CollisionPair>, lookup: nat -> Option<RigidBody>, maxContacts: nat,
                    sqrt: real -> real, n: nat): (r: seq<Contact>)
    requires n <= |pairs|
    ensures |r| <= maxContacts && |r| <= n
  {
    if n == 0 then []
    else
      var prev := Detected(pairs, lookup, maxContacts, sqrt, n - 1);
      var c := PairContact(pairs[n - 1], lookup, sqrt);
      if c.Some? && |prev| < maxContacts then prev + [c.value] else prev
  }

  /**
   * `detectCollisions`: clears the output and the counter, then runs every
   * candidate pair through the dispatch, keeping at most `maxContacts`
   * contacts; the counter ends equal to the number kept.
   */
  method DetectCollisions(pairs: seq<CollisionPair>, lookup: nat -> Option<RigidBody>, maxContacts: nat,
                          sqrt: real -> real) returns (contacts: seq<Contact>, contactCount: nat)
    ensures contacts == Detected(pairs, lookup, maxContacts, sqrt, |pairs|)
    ensures contactCount == |contacts| <= maxContacts
  {
    contacts := [];
    contactCount := 0;
    var i := 0;
    while i < |pairs|
      invariant i <= |pairs|
      invariant contacts == Detected(pairs, lookup, maxContacts, sqrt, i)
      invariant contactCount == |contacts|
    {
      var p := pairs[i];
      var a, b := lookup(p.bodyIdA), lookup(p.bodyIdB);
      if a.Some? && b.Some? {
        var h := Narrow(a.value, b.value, sqrt);
        if h.Some? && contactCount < maxContacts {
          var c := Contact(h.value.position, h.value.normal, h.value.penetration, p.bodyIdA, p.bodyIdB,
                           CombinedRestitution(a.value.restitution, b.value.restitution),
                           CombinedFriction(sqrt, a.value.friction, b.value.friction));
          contacts := contacts + [c];
          contactCount := contactCount + 1;
        }
      }
      i := i + 1;
    }
  }

  // ---------------------------------------------------------------- properties of the loop

  /** Every stored contact is the contact of one of the pairs, so it names that pair's bodies in pair order. */
  lemma {:induction false} DetectedSound(pairs: seq<CollisionPair>, lookup: nat -> Option<RigidBody>, maxContacts: nat,
                                         sqrt: real -> real, n: nat)
    requires n <= |pairs|
    ensures forall m :: 0 <= m < |Detected(pairs, lookup, maxContacts, sqrt, n)| ==>
              exists k :: 0 <= k < n && PairContact(pairs[k], lookup, sqrt) == Some(Detected(pairs, lookup, maxContacts, sqrt, n)[m])
  {
    if n > 0 {
      var prev, cur := Detected(pairs, lookup, maxContacts, sqrt, n - 1), Detected(pairs, lookup, maxContacts, sqrt, n);
      DetectedSound(pairs, lookup, maxContacts, sqrt, n - 1);
      forall m | 0 <= m < |cur|
        ensures exists k :: 0 <= k < n && PairContact(pairs[k], lookup, sqrt) == Some(cur[m])
      {
        if m < |prev| {
          assert cur[m] == prev[m];
          var k :| 0 <= k < n - 1 && PairContact(pairs[k], lookup, sqrt) == Some(prev[m]);
          assert 0 <= k < n;
        } else {
          assert PairContact(pairs[n - 1], lookup, sqrt) == Some(cur[m]);
        }
      }
    } else {
      assert Detected(pairs, lookup, maxContacts, sqrt, n) == [];
    }
  }

  /** While capacity is not reached, every pair that yields a contact has it stored. */
  lemma {:induction false} DetectedComplete(pairs: seq<CollisionPair>, lookup: nat -> Option<RigidBody>, maxContacts: nat,
                                            sqrt: real -> real, n: nat)
    requires n <= |pairs|
    requires |Detected(pairs, lookup, maxContacts, sqrt, n)| < maxContacts
    ensures forall k :: 0 <= k < n && PairContact(pairs[k], lookup, sqrt).Some? ==>
              PairContact(pairs[k], lookup, sqrt).value in Detected(pairs, lookup, maxContacts, sqrt, n)
  {
    if n > 0 {
      var prev, cur := Detected(pairs, lookup, maxContacts, sqrt, n - 1), Detected(pairs, lookup, maxContacts, sqrt, n);
      var c := PairContact(pairs[n - 1], lookup, sqrt);
      assert cur == prev || (c.Some? && cur == prev + [c.value]);
      DetectedComplete(pairs, lookup, maxContacts, sqrt, n - 1);
      forall k | 0 <= k < n && PairContact(pairs[k], lookup, sqrt).Some?
        ensures PairContact(pairs[k], lookup, sqrt).value in cur
      {
        if k < n - 1 {
          var x := PairContact(pairs[k], lookup, sqrt).value;
          assert x in prev;
          assert x in cur by {
            var m :| 0 <= m < |prev| && prev[m] == x;
            assert cur[m] == x;
          }
        } else {
          assert cur == prev + [c.value];
          assert cur[|prev|] == c.value;
        }
      }
    }
  }

  /**
   * A box-first sphere pair is tested with the bodies swapped and the normal
   * reversed, yet the stored ids stay in pair order.
   */
  lemma BoxFirstKeepsPairOrder(p: CollisionPair, lookup: nat -> Option<RigidBody>, sqrt: real -> real)
    requires lookup(p.bodyIdA).Some? && lookup(p.bodyIdB).Some?
    requires lookup(p.bodyIdA).value.shapeType == BoxShape && lookup(p.bodyIdB).value.shapeType == SphereShape
    ensures PairContact(p, lookup, sqrt).Some? <==> SphereVsBox(lookup(p.bodyIdB).value, lookup(p.bodyIdA).value, sqrt).Some?
    ensures PairContact(p, lookup, sqrt).Some? ==>
              PairContact(p, lookup, sqrt).value.bodyIdA == p.bodyIdA && PairContact(p, lookup, sqrt).value.bodyIdB == p.bodyIdB
              && PairContact(p, lookup, sqrt).value.normal
                 == SphereVsBox(lookup(p.bodyIdB).value, lookup(p.bodyIdA).value, sqrt).value.normal.Neg()
  {
  }

  /** Only spheres and boxes are tested: a capsule or a plane never yields a hit. */
  lemma OtherShapesNeverHit(a: RigidBody, b: RigidBody, sqrt: real -> real)
    requires a.shapeType !in {SphereShape, BoxShape} || b.shapeType !in {SphereShape, BoxShape}
    ensures Narrow(a, b, sqrt) == None
  {
  }

  // ---------------------------------------------------------------- properties of the shape tests

  /** For a non-negative bound, a root lies below it exactly when its square does. */
  lemma RootBelow(sqrt: real -> real, s: real, bound: real)
    requires IsSqrt(sqrt) && 0.0 <= s && 0.0 <= bound
    ensures s < bound * bound <==> sqrt(s) < bound
  {
    var q := sqrt(s);
    assert 0.0 <= q && q * q == s;
    if s < bound * bound {
      SqrtBelow(sqrt, s, bound);
    }
    if q < bound {
      SquareLess(q, bound);
    }
  }

  /** A direction from a vector and its length is a unit vector when the fallback is. */
  lemma DirectionIsUnit(d: Vec3, dist: real, fallback: Vec3)
    requires 0.0 <= dist && dist * dist == d.LengthSq() && fallback.LengthSq() == 1.0
    ensures Direction(d, dist, fallback).LengthSq() == 1.0
  {
    if dist > 0.0 {
      UnitAfterDivision(d, dist);
    }
  }

  /**
   * With a non-negative reach, there is a hit exactly when |d| is below the
   * reach; the depth is the reach minus |d|, so positive, and the normal is a
   * unit vector when the fallback is.
   */
  lemma SeparationMeaning(d: Vec3, reach: real, sqrt: real -> real, fallback: Vec3)
    requires IsSqrt(sqrt) && 0.0 <= reach && fallback.LengthSq() == 1.0
    ensures var s := Separation(d, reach, sqrt, fallback);
            (s.Some? <==> sqrt(d.LengthSq()) < reach)
            && (s.Some? ==> s.value.1 == reach - sqrt(d.LengthSq()) && s.value.1 > 0.0 && s.value.0.LengthSq() == 1.0)
  {
    var distSq := d.LengthSq();
    assert 0.0 <= sqrt(distSq) && sqrt(distSq) * sqrt(distSq) == distSq && (distSq < reach * reach <==> sqrt(distSq) < reach) by {
      LengthSqSign(d);
      RootBelow(sqrt, distSq, reach);
    }
    SeparationFromRoot(d, reach, sqrt, fallback);
  }

  /** `SeparationMeaning` for one root value that already has the properties of a square root. */
  lemma SeparationFromRoot(d: Vec3, reach: real, sqrt: real -> real, fallback: Vec3)
    requires 0.0 <= reach && fallback.LengthSq() == 1.0
    requires 0.0 <= sqrt(d.LengthSq()) && sqrt(d.LengthSq()) * sqrt(d.LengthSq()) == d.LengthSq()
    requires d.LengthSq() < reach * reach <==> sqrt(d.LengthSq()) < reach
    ensures var s := Separation(d, reach, sqrt, fallback);
            (s.Some? <==> sqrt(d.LengthSq()) < reach)
            && (s.Some? ==> s.value.1 == reach - sqrt(d.LengthSq()) && s.value.1 > 0.0 && s.value.0.LengthSq() == 1.0)
  {
    DirectionIsUnit(d, sqrt(d.LengthSq()), fallback);
  }

  /** When the two points coincide and the reach is not zero: a hit along the fallback, as deep as the reach. */
  lemma SeparationAtZero(d: Vec3, reach: real, sqrt: real -> real, fallback: Vec3)
    requires sqrt(0.0) == 0.0 && d == Zero && reach != 0.0
    ensures Separation(d, reach, sqrt, fallback) == Some((fallback, reach))
  {
    assert d.LengthSq() == 0.0 * 0.0 + 0.0 * 0.0 + 0.0 * 0.0;
    SquareAbove(reach, 0.0);
  }

  /**
   * Two spheres with radii summing to a non-negative value touch exactly when
   * their centres are closer than that sum; the depth is the sum minus the
   * distance, positive; the normal is a unit vector and the contact lies on
   * A's surface, one radius back along it.
   */
  lemma SphereVsSphereMeaning(a: RigidBody, b: RigidBody, sqrt: real -> real)
    requires IsSqrt(sqrt) && a.shapeData.d0 + b.shapeData.d0 >= 0.0
    ensures var dist := sqrt(a.position.Sub(b.position).LengthSq());
            var h := SphereVsSphere(a, b, sqrt);
            (h.Some? <==> dist < a.shapeData.d0 + b.shapeData.d0)
            && (h.Some? ==> h.value.penetration == a.shapeData.d0 + b.shapeData.d0 - dist && h.value.penetration > 0.0
                            && h.value.normal.LengthSq() == 1.0
                            && h.value.position == a.position.Sub(h.value.normal.Scale(a.shapeData.d0)))
  {
    SeparationMeaning(a.position.Sub(b.position), a.shapeData.d0 + b.shapeData.d0, sqrt, Vec3(1.0, 0.0, 0.0));
  }

  /** Swapping the spheres gives a hit exactly when before, with the same depth and, for distinct centres, the opposite normal. */
  lemma SphereVsSphereSwap(a: RigidBody, b: RigidBody, sqrt: real -> real)
    ensures SphereVsSphere(a, b, sqrt).Some? <==> SphereVsSphere(b, a, sqrt).Some?
    ensures SphereVsSphere(a, b, sqrt).Some? ==>
              SphereVsSphere(a, b, sqrt).value.penetration == SphereVsSphere(b, a, sqrt).value.penetration
    ensures SphereVsSphere(a, b, sqrt).Some? && sqrt(a.position.Sub(b.position).LengthSq()) > 0.0 ==>
              SphereVsSphere(a, b, sqrt).value.normal == SphereVsSphere(b, a, sqrt).value.normal.Neg()
  {
    var d, e := a.position.Sub(b.position), b.position.Sub(a.position);
    assert e == d.Neg();
    assert d.LengthSq() == e.LengthSq() by {
      assert e.x * e.x == d.x * d.x && e.y * e.y == d.y * d.y && e.z * e.z == d.z * d.z;
    }
  }

  /** Coincident centres with a non-zero radius sum: normal (1, 0, 0) and the whole sum as depth. */
  lemma CoincidentSpheres(a: RigidBody, b: RigidBody, sqrt: real -> real)
    requires sqrt(0.0) == 0.0 && a.position == b.position && a.shapeData.d0 + b.shapeData.d0 != 0.0
    ensures SphereVsSphere(a, b, sqrt).Some?
    ensures SphereVsSphere(a, b, sqrt).value.normal == Vec3(1.0, 0.0, 0.0)
    ensures SphereVsSphere(a, b, sqrt).value.penetration == a.shapeData.d0 + b.shapeData.d0
  {
    assert a.position.Sub(b.position) == Zero;
    SeparationAtZero(a.position.Sub(b.position), a.shapeData.d0 + b.shapeData.d0, sqrt, Vec3(1.0, 0.0, 0.0));
  }

  /** The separations behind the unit-sphere scenario: 1.5 apart along −x, and 3.0 apart. */
  lemma UnitSeparations(sqrt: real -> real)
    requires IsSqrt(sqrt)
    ensures Separation(Vec3(-1.5, 0.0, 0.0), 2.0, sqrt, Vec3(1.0, 0.0, 0.0)) == Some((Vec3(-1.0, 0.0, 0.0), 0.5))
    ensures Separation(Vec3(-3.0, 0.0, 0.0), 2.0, sqrt, Vec3(1.0, 0.0, 0.0)) == None
  {
    SqrtOfSquare(sqrt, 1.5);
    assert Vec3(-1.5, 0.0, 0.0).LengthSq() == 1.5 * 1.5;
  }

  /** Unit spheres 1.5 apart overlap by 0.5 along −x, touching at A's surface; 3.0 apart they do not touch. */
  lemma UnitSpheresScenario(a: RigidBody, b: RigidBody, c: RigidBody, sqrt: real -> real)
    requires IsSqrt(sqrt)
    requires a.position == Zero && b.position == Vec3(1.5, 0.0, 0.0) && c.position == Vec3(3.0, 0.0, 0.0)
    requires a.shapeData.d0 == 1.0 && b.shapeData.d0 == 1.0 && c.shapeData.d0 == 1.0
    ensures SphereVsSphere(a, b, sqrt) == Some(Hit(Vec3(1.0, 0.0, 0.0), Vec3(-1.0, 0.0, 0.0), 0.5))
    ensures SphereVsSphere(a, c, sqrt) == None
  {
    var near := Separation(Vec3(-1.5, 0.0, 0.0), 2.0, sqrt, Vec3(1.0, 0.0, 0.0));
    var far := Separation(Vec3(-3.0, 0.0, 0.0), 2.0, sqrt, Vec3(1.0, 0.0, 0.0));
    assert near == Some((Vec3(-1.0, 0.0, 0.0), 0.5)) && far == None by {
      UnitSeparations(sqrt);
    }
    assert a.position.Sub(b.position) == Vec3(-1.5, 0.0, 0.0) && a.shapeData.d0 + b.shapeData.d0 == 2.0;
    assert a.position.Sub(c.position) == Vec3(-3.0, 0.0, 0.0) && a.shapeData.d0 + c.shapeData.d0 == 2.0;
    assert a.position.Sub(Vec3(-1.0, 0.0, 0.0).Scale(1.0)) == Vec3(1.0, 0.0, 0.0);
  }

  /** The clamped point lies in the box (for non-negative half-extents), and it is the centre itself exactly when the centre is inside. */
  lemma ClosestInBox(p: Vec3, center: Vec3, half: Vec3)
    requires half.x >= 0.0 && half.y >= 0.0 && half.z >= 0.0
    ensures var c := Closest(p, center, half);
            center.x - half.x <= c.x <= center.x + half.x
            && center.y - half.y <= c.y <= center.y + half.y
            && center.z - half.z <= c.z <= center.z + half.z
    ensures Closest(p, center, half) == p <==>
              Abs(p.x - center.x) <= half.x && Abs(p.y - center.y) <= half.y && Abs(p.z - center.z) <= half.z
  {
  }

  /** The inside normal is ±1 on the axis of the nearest face, + exactly when the centre lies above the box centre there. */
  lemma InsideNormalMeaning(p: Vec3, center: Vec3, half: Vec3)
    ensures var axis := MinAxis(FaceDistances(p, center, half));
            var n := InsideNormal(p, center, half);
            n.LengthSq() == 1.0 && (n.At(axis) == 1.0 <==> p.At(axis) > center.At(axis))
            && forall k :: 0 <= k < 3 && k != axis ==> n.At(k) == 0.0
  {
    var axis := MinAxis(FaceDistances(p, center, half));
    var n := InsideNormal(p, center, half);
    SignedAxisMeaning(axis, p.At(axis) > center.At(axis));
    assert n.LengthSq() == n.Dot(n);
  }

  /**
   * A sphere of non-negative radius touches the box exactly when the distance
   * from its centre to the clamped point is below the radius; the contact
   * point is that clamped point, the depth is positive and the normal a unit vector.
   */
  lemma SphereVsBoxMeaning(sphere: RigidBody, box: RigidBody, sqrt: real -> real)
    requires IsSqrt(sqrt) && sphere.shapeData.d0 >= 0.0
    ensures var c := Closest(sphere.position, box.position, HalfExtents(box));
            var dist := sqrt(sphere.position.Sub(c).LengthSq());
            var h := SphereVsBox(sphere, box, sqrt);
            (h.Some? <==> dist < sphere.shapeData.d0)
            && (h.Some? ==> h.value.position == c && h.value.penetration == sphere.shapeData.d0 - dist
                            && h.value.penetration > 0.0 && h.value.normal.LengthSq() == 1.0)
  {
    var half := HalfExtents(box);
    InsideNormalMeaning(sphere.position, box.position, half);
    SeparationMeaning(sphere.position.Sub(Closest(sphere.position, box.position, half)), sphere.shapeData.d0, sqrt,
                      InsideNormal(sphere.position, box.position, half));
  }

  /**
   * A sphere of non-zero radius whose centre is inside the box always touches
   * it: at its centre, with the whole radius as depth, pushed out through the
   * nearest face.
   */
  lemma SphereCentreInsideBox(sphere: RigidBody, box: RigidBody, sqrt: real -> real)
    requires sqrt(0.0) == 0.0 && sphere.shapeData.d0 != 0.0
    requires var half := HalfExtents(box);
             half.x >= 0.0 && half.y >= 0.0 && half.z >= 0.0
             && Abs(sphere.position.x - box.position.x) <= half.x
             && Abs(sphere.position.y - box.position.y) <= half.y
             && Abs(sphere.position.z - box.position.z) <= half.z
    ensures SphereVsBox(sphere, box, sqrt) ==
              Some(Hit(sphere.position, InsideNormal(sphere.position, box.position, HalfExtents(box)), sphere.shapeData.d0))
  {
    var half := HalfExtents(box);
    ClosestInBox(sphere.position, box.position, half);
    assert sphere.position.Sub(Closest(sphere.position, box.position, half)) == Zero;
    SeparationAtZero(sphere.position.Sub(Closest(sphere.position, box.position, half)), sphere.shapeData.d0, sqrt,
                     InsideNormal(sphere.position, box.position, half));
  }

  /**
   * Two boxes touch exactly when they overlap on every axis; the depth is the
   * least overlap, the normal is ±1 on an axis of least overlap (0 on the
   * others), + exactly when A's centre lies above B's there; the contact is
   * the midpoint of the centres.
   */
  lemma BoxVsBoxMeaning(a: RigidBody, b: RigidBody)
    ensures var o := Overlaps(a, b);
            var h := BoxVsBox(a, b);
            (h.Some? <==> o.x > 0.0 && o.y > 0.0 && o.z > 0.0)
            && (h.Some? ==>
                  var axis := MinAxis(o);
                  h.value.penetration == o.At(axis) && h.value.penetration > 0.0
                  && (forall k :: 0 <= k < 3 ==> h.value.penetration <= o.At(k))
                  && h.value.normal.Dot(h.value.normal) == 1.0
                  && (h.value.normal.At(axis) == 1.0 <==> a.position.At(axis) > b.position.At(axis))
                  && (forall k :: 0 <= k < 3 && k != axis ==> h.value.normal.At(k) == 0.0)
                  && h.value.position == a.position.Add(b.position).Scale(0.5))
  {
    var o := Overlaps(a, b);
    if o.x > 0.0 && o.y > 0.0 && o.z > 0.0 {
      var axis := MinAxis(o);
      var h := BoxVsBox(a, b).value;
      assert h.penetration == o.At(axis) > 0.0 && forall k :: 0 <= k < 3 ==> h.penetration <= o.At(k) by {
        assert o.At(0) == o.x && o.At(1) == o.y && o.At(2) == o.z;
      }
      SignedAxisMeaning(axis, a.position.At(axis) > b.position.At(axis));
    }
  }

  /** A signed axis is a unit vector whose sign on its axis says `above`. */
  lemma SignedAxisMeaning(axis: nat, above: bool)
    requires axis < 3
    ensures var n := SignedAxis(axis, above);
            n.Dot(n) == 1.0 && (n.At(axis) == 1.0 <==> above)
            && forall k :: 0 <= k < 3 && k != axis ==> n.At(k) == 0.0
  {
    AxisVecMeaning(axis, if above then 1.0 else -1.0);
  }

  /** Swapping the boxes keeps the hit and its depth and reverses the normal when the centres differ on the chosen axis. */
  lemma BoxVsBoxSwap(a: RigidBody, b: RigidBody)
    ensures BoxVsBox(a, b).Some? <==> BoxVsBox(b, a).Some?
    ensures BoxVsBox(a, b).Some? ==>
              var axis := MinAxis(Overlaps(a, b));
              BoxVsBox(a, b).value.penetration == BoxVsBox(b, a).value.penetration
              && (a.position.At(axis) != b.position.At(axis) ==> BoxVsBox(a, b).value.normal == BoxVsBox(b, a).value.normal.Neg())
  {
    assert Overlaps(a, b) == Overlaps(b, a);
  }

  /** The combined restitution is symmetric and lies between the two; 0.5 and 0.7 give 0.6. */
  lemma CombinedRestitutionMeaning(restA: real, restB: real)
    ensures CombinedRestitution(restA, restB) == CombinedRestitution(restB, restA)
    ensures MinR(restA, restB) <= CombinedRestitution(restA, restB) <= MaxR(restA, restB)
    ensures CombinedRestitution(0.5, 0.7) == 0.6
  {
  }

  /** The combined friction is symmetric, squares to the product, and is the friction itself when both agree. */
  lemma CombinedFrictionMeaning(sqrt: real -> real, fricA: real, fricB: real)
    requires IsSqrt(sqrt) && fricA >= 0.0 && fricB >= 0.0
    ensures CombinedFriction(sqrt, fricA, fricB) == CombinedFriction(sqrt, fricB, fricA)
    ensures var f := CombinedFriction(sqrt, fricA, fricB); f >= 0.0 && f * f == fricA * fricB
    ensures CombinedFriction(sqrt, fricA, fricA) == fricA
  {
    assert fricA * fricB == fricB * fricA;
    assert fricA * fricB >= 0.0;
    SqrtOfSquare(sqrt, fricA);
  }
}
