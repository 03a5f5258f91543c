// The O(n²) broad phase shared by `CollisionSystem::updateBroadPhase` and
// `BroadPhaseWorker`: every index pair i < j of the body list, skipping pairs
// of two static bodies, becomes an active candidate pair when a bounding-sphere
// test passes.
module BroadPhase {
  import opened Common
  import opened RigidBodies
  import opened Pairs
  import NarrowPhase

  /** `getMaxRadius`: the largest of the first three shape values. */
  function MaxRadius(b: RigidBody): (r: real)
    ensures r >= b.shapeData.d0 && r >= b.shapeData.d1 && r >= b.shapeData.d2
    ensures r == b.shapeData.d0 || r == b.shapeData.d1 || r == b.shapeData.d2
  {
    MaxR(MaxR(b.shapeData.d0, b.shapeData.d1), b.shapeData.d2)
  }

  /** The square of a real. */
  function Sq(r: real): real
  {
    r * r
  }

  /** `isAABBOverlapping` as written: squared centre distance at most the squared sum of the two max radii. */
  function IsAabbOverlapping(a: RigidBody, b: RigidBody): bool
  {
    a.position.Sub(b.position).LengthSq() <= Sq(MaxRadius(a) + MaxRadius(b))
  }

  /**
   * A radius whose sphere contains the body: for a box the sum of its
   * half-extents (at least its half-diagonal), otherwise the max radius.
   */
  function BoundingRadius(b: RigidBody): real
  {
    if b.shapeType == BoxShape then b.shapeData.d0 + b.shapeData.d1 + b.shapeData.d2 else MaxRadius(b)
  }

  /** The bounding-sphere test with radii that contain the bodies. */
  function BoundsOverlap(a: RigidBody, b: RigidBody): bool
  {
    a.position.Sub(b.position).LengthSq() <= Sq(BoundingRadius(a) + BoundingRadius(b))
  }

  /** The bounding-sphere test: the one `isAABBOverlapping` applies, or the corrected one when `corrected`. */
  function Overlap(corrected: bool, a: RigidBody, b: RigidBody): bool
  {
    if corrected then BoundsOverlap(a, b) else IsAabbOverlapping(a, b)
  }

  /** Whether indices `i` and `j` of the list form a candidate: not both static, and the chosen bounds overlap. */
  predicate IsCandidate(bodies: seq<RigidBody>, i: nat, j: nat, corrected: bool)
  {
    i < |bodies| && j < |bodies| && !(IsStatic(bodies[i]) && IsStatic(bodies[j])) && Overlap(corrected, bodies[i], bodies[j])
  }

  /** `IsCandidate` as the filter of the pair enumeration. */
  function Candidate(bodies: seq<RigidBody>, corrected: bool): (nat, nat) -> bool
  {
    (i: nat, j: nat) => IsCandidate(bodies, i, j, corrected)
  }

  /** Index pairs as active `CollisionPair` records. */
  function Tagged(s: seq<(nat, nat)>): (r: seq<CollisionPair>)
    ensures |r| == |s|
    ensures forall k :: 0 <= k < |s| ==> r[k] == CollisionPair(s[k].0, s[k].1, 1)
  {
    seq(|s|, k requires 0 <= k < |s| => CollisionPair(s[k].0, s[k].1, 1))
  }

  lemma TaggedSnoc(s: seq<(nat, nat)>, p: (nat, nat))
    ensures Tagged(s + [p]) == Tagged(s) + [CollisionPair(p.0, p.1, 1)]
  {
    assert Tagged(s + [p])[|s|] == CollisionPair(p.0, p.1, 1);
  }

  lemma TaggedAppend(s: seq<(nat, nat)>, t: seq<(nat, nat)>)
    ensures Tagged(s + t) == Tagged(s) + Tagged(t)
  {
  }

  /**
   * `updateBroadPhase`: clears the output, then the nested loop over i < j
   * appends `(i, j, active)` for every pair `isAABBOverlapping` passes, in
   * loop order.
   */
  method UpdateBroadPhase(bodies: seq<RigidBody>) returns (pairs: seq<CollisionPair>)
    ensures pairs == Tagged(AllPairs(Range(0, |bodies|), Candidate(bodies, false)))
  {
    ghost var es, keep := Range(0, |bodies|), Candidate(bodies, false);
    pairs := [];
    var i: nat := 0;
    while i < |bodies|
      invariant i <= |bodies|
      invariant pairs == Tagged(UpperPairs(es, i, keep))
    {
      UpperPairsStep(es, i, keep);
      TaggedAppend(UpperPairs(es, i, keep), Row(es, i, |es|, keep));
      pairs := AppendCandidates(bodies, i, pairs);
      i := i + 1;
    }
  }

  /** The inner loop of `updateBroadPhase`: appends the candidates `(i, j)` for every `j > i`. */
  method AppendCandidates(bodies: seq<RigidBody>, i: nat, start: seq<CollisionPair>) returns (pairs: seq<CollisionPair>)
    requires i < |bodies|
    ensures pairs == start + Tagged(Row(Range(0, |bodies|), i, |bodies|, Candidate(bodies, false)))
  {
    ghost var es, keep := Range(0, |bodies|), Candidate(bodies, false);
    RangeIndex(0, |bodies|);
    pairs := start;
    var j: nat := i + 1;
    while j < |bodies|
      invariant i < j <= |bodies|
      invariant pairs == start + Tagged(Row(es, i, j, keep))
    {
      RowSnoc(es, i, j, keep);
      assert es[i] == i && es[j] == j;
      if !(IsStatic(bodies[i]) && IsStatic(bodies[j])) && IsAabbOverlapping(bodies[i], bodies[j]) {
        TaggedSnoc(Row(es, i, j, keep), (i, j));
        AppendAssoc(start, Tagged(Row(es, i, j, keep)), [CollisionPair(i, j, 1)]);
        pairs := pairs + [CollisionPair(i, j, 1)];
      }
      j := j + 1;
    }
  }

  /**
   * Every index pair i < j of bodies that are not both static and pass the
   * bounding test is reported, marked active: with `corrected` false this is
   * the broad phase as written, with it true the corrected one.
   */
  lemma BroadPhaseComplete(bodies: seq<RigidBody>, corrected: bool)
    ensures forall i: nat, j: nat :: i < j && IsCandidate(bodies, i, j, corrected) ==>
              CollisionPair(i, j, 1) in Tagged(AllPairs(Range(0, |bodies|), Candidate(bodies, corrected)))
  {
    var es, keep := Range(0, |bodies|), Candidate(bodies, corrected);
    var s := AllPairs(es, keep);
    RangeIndex(0, |bodies|);
    AllPairsMembers(es, keep);
    forall i: nat, j: nat | i < j && IsCandidate(bodies, i, j, corrected)
      ensures CollisionPair(i, j, 1) in Tagged(s)
    {
      assert es[i] == i && es[j] == j;
      assert (es[i], es[j]) in s;
      var k :| 0 <= k < |s| && s[k] == (i, j);
      assert Tagged(s)[k] == CollisionPair(i, j, 1);
    }
  }

  /** Every reported pair is active and names two bodies i < j that are not both static and pass the bounding test. */
  lemma BroadPhaseSound(bodies: seq<RigidBody>, corrected: bool)
    ensures forall p :: p in Tagged(AllPairs(Range(0, |bodies|), Candidate(bodies, corrected))) ==>
              p.isActive == 1 && p.bodyIdA < p.bodyIdB && IsCandidate(bodies, p.bodyIdA, p.bodyIdB, corrected)
  {
    var es, keep := Range(0, |bodies|), Candidate(bodies, corrected);
    var s := AllPairs(es, keep);
    RangeIndex(0, |bodies|);
    AllPairsMembers(es, keep);
    forall p | p in Tagged(s)
      ensures p.isActive == 1 && p.bodyIdA < p.bodyIdB && IsCandidate(bodies, p.bodyIdA, p.bodyIdB, corrected)
    {
      var k :| 0 <= k < |s| && Tagged(s)[k] == p;
      assert s[k] in s;
      var i, j :| 0 <= i < j < |es| && s[k] == (es[i], es[j]) && keep(es[i], es[j]);
    }
  }

  /**
   * For bodies with non-negative shape values the corrected radius is never
   * smaller than the max radius, so every pair the test as written passes
   * also passes the corrected one.
   */
  lemma CorrectedCoversAsWritten(a: RigidBody, b: RigidBody)
    requires a.shapeData.d0 >= 0.0 && a.shapeData.d1 >= 0.0 && a.shapeData.d2 >= 0.0
    requires b.shapeData.d0 >= 0.0 && b.shapeData.d1 >= 0.0 && b.shapeData.d2 >= 0.0
    requires IsAabbOverlapping(a, b)
    ensures BoundsOverlap(a, b)
  {
    RadiusWithinBounding(a);
    RadiusWithinBounding(b);
    var written, corrected := MaxRadius(a) + MaxRadius(b), BoundingRadius(a) + BoundingRadius(b);
    SquareMonotone(written, corrected);
    assert Sq(written) <= Sq(corrected);
  }

  /** With non-negative shape values the max radius is non-negative and within the corrected radius. */
  lemma RadiusWithinBounding(b: RigidBody)
    requires b.shapeData.d0 >= 0.0 && b.shapeData.d1 >= 0.0 && b.shapeData.d2 >= 0.0
    ensures 0.0 <= MaxRadius(b) <= BoundingRadius(b)
  {
  }

  /** The test as written and the corrected one are both symmetric in the two bodies. */
  lemma OverlapSymmetric(a: RigidBody, b: RigidBody)
    ensures IsAabbOverlapping(a, b) == IsAabbOverlapping(b, a)
    ensures BoundsOverlap(a, b) == BoundsOverlap(b, a)
  {
    var d, e := a.position.Sub(b.position), b.position.Sub(a.position);
    assert d.LengthSq() == e.LengthSq() by {
      assert e.x * e.x == d.x * d.x && e.y * e.y == d.y * d.y && e.z * e.z == d.z * d.z;
    }
    assert MaxRadius(a) + MaxRadius(b) == MaxRadius(b) + MaxRadius(a);
    assert BoundingRadius(a) + BoundingRadius(b) == BoundingRadius(b) + BoundingRadius(a);
  }

  /**
   * As written, the test uses a box's largest half-extent as its radius, which
   * does not contain the box: unit-half-extent boxes offset by 1.9 on every
   * axis overlap (by 0.1 on each), yet the pair is never a candidate. The
   * corrected test keeps it.
   */
  lemma CornerBoxesMissed(a: RigidBody, b: RigidBody)
    requires a.shapeType == BoxShape && b.shapeType == BoxShape
    requires a.shapeData == ShapeData(1.0, 1.0, 1.0, 0.0) && b.shapeData == ShapeData(1.0, 1.0, 1.0, 0.0)
    requires a.position == Zero && b.position == Vec3(1.9, 1.9, 1.9)
    ensures NarrowPhase.BoxVsBox(a, b).Some?
    ensures !IsAabbOverlapping(a, b)
    ensures BoundsOverlap(a, b)
  {
    assert a.position.Sub(b.position) == Vec3(-1.9, -1.9, -1.9);
    assert NarrowPhase.Overlaps(a, b) == Vec3(0.1, 0.1, 0.1);
  }

  /** Squares of non-negative reals keep their order. */
  lemma SquareMonotone(x: real, y: real)
    requires 0.0 <= x <= y
    ensures x * x <= y * y
  {
    if x < y {
      SquareLess(x, y);
    }
  }

  /** The squared length is at most the square of the sum of the absolute coordinates. */
  lemma LengthSqBelowTaxicab(d: Vec3)
    ensures d.LengthSq() <= (Abs(d.x) + Abs(d.y) + Abs(d.z)) * (Abs(d.x) + Abs(d.y) + Abs(d.z))
  {
    var a, b, c := Abs(d.x), Abs(d.y), Abs(d.z);
    assert a * a == d.x * d.x && b * b == d.y * d.y && c * c == d.z * d.z;
    assert a * b >= 0.0 && b * c >= 0.0 && a * c >= 0.0;
    assert (a + b + c) * (a + b + c) == a * a + b * b + c * c + 2.0 * (a * b + b * c + a * c);
  }

  /** A squared distance below the square of a non-negative radius sum is within the square of any larger reach. */
  lemma ReachCovers(distSq: real, radiusSum: real, reach: real)
    requires distSq < radiusSum * radiusSum && 0.0 <= radiusSum <= reach
    ensures distSq <= Sq(reach)
  {
    SquareMonotone(radiusSum, reach);
  }

  /** A vector whose absolute coordinates sum to less than the reach has its squared length within the reach's square. */
  lemma TaxicabCovers(d: Vec3, reach: real)
    requires Abs(d.x) + Abs(d.y) + Abs(d.z) < reach
    ensures d.LengthSq() <= Sq(reach)
  {
    var taxicab := Abs(d.x) + Abs(d.y) + Abs(d.z);
    LengthSqBelowTaxicab(d);
    SquareLess(taxicab, reach);
  }

  /**
   * Two spheres of non-negative radius that touch pass the test as written,
   * whose max radius is at least the sphere radius, and the corrected test,
   * which uses the same radius for spheres.
   */
  lemma SphereHitsAreCandidates(a: RigidBody, b: RigidBody, sqrt: real -> real)
    requires a.shapeType == SphereShape && b.shapeType == SphereShape
    requires a.shapeData.d0 >= 0.0 && b.shapeData.d0 >= 0.0
    requires NarrowPhase.Narrow(a, b, sqrt).Some?
    ensures IsAabbOverlapping(a, b) && BoundsOverlap(a, b)
  {
    var d := a.position.Sub(b.position);
    var radiusSum := a.shapeData.d0 + b.shapeData.d0;
    assert d.LengthSq() < radiusSum * radiusSum by {
      assert NarrowPhase.Narrow(a, b, sqrt) == NarrowPhase.SphereVsSphere(a, b, sqrt);
    }
    ReachCovers(d.LengthSq(), radiusSum, MaxRadius(a) + MaxRadius(b));
  }

  /** With the corrected radii, two boxes that touch are always a candidate. */
  lemma BoxHitsAreCandidates(a: RigidBody, b: RigidBody, sqrt: real -> real)
    requires a.shapeType == BoxShape && b.shapeType == BoxShape
    requires NarrowPhase.Narrow(a, b, sqrt).Some?
    ensures BoundsOverlap(a, b)
  {
    var d := a.position.Sub(b.position);
    assert Abs(d.x) + Abs(d.y) + Abs(d.z) < BoundingRadius(a) + BoundingRadius(b) by {
      var o := NarrowPhase.Overlaps(a, b);
      assert NarrowPhase.Narrow(a, b, sqrt) == NarrowPhase.BoxVsBox(a, b);
      assert o.x > 0.0 && o.y > 0.0 && o.z > 0.0;
    }
    TaxicabCovers(d, BoundingRadius(a) + BoundingRadius(b));
  }
}
