// Box geometry and contact records shared by the two ECS collision systems:
// the axis-aligned box of a scaled box collider, the inclusive overlap test,
// the layer filter that always asks about layer 0, and the queries over the
// list of active contacts.
module EcsContacts {
  import opened Common
  import opened Components

  /** An axis-aligned box given by its low and high corners. */
  datatype Aabb = Aabb(min: Vec3, max: Vec3)

  /** A detected contact between two entities. */
  datatype CollisionPair = CollisionPair(entityA: nat, entityB: nat, penetrationDepth: real,
                                         normal: Vec3, contactPoint: Vec3)

  /** Half of each collider dimension, scaled by the transform's scale on that axis. */
  function HalfExtents(t: Transform, c: BoxCollider): Vec3
  {
    Vec3(c.width * t.scale.x * 0.5, c.height * t.scale.y * 0.5, c.depth * t.scale.z * 0.5)
  }

  /** `calculateAABB`: the position plus and minus the half-extents. */
  function CalculateAabb(t: Transform, c: BoxCollider): Aabb
  {
    Aabb(t.position.Sub(HalfExtents(t, c)), t.position.Add(HalfExtents(t, c)))
  }

  /** The box is centred on the position and as wide as the scaled collider. */
  lemma AabbCentredOnPosition(t: Transform, c: BoxCollider)
    ensures var b := CalculateAabb(t, c);
            (b.min.x + b.max.x) / 2.0 == t.position.x
            && (b.min.y + b.max.y) / 2.0 == t.position.y
            && (b.min.z + b.max.z) / 2.0 == t.position.z
    ensures var b := CalculateAabb(t, c);
            b.max.x - b.min.x == c.width * t.scale.x
            && b.max.y - b.min.y == c.height * t.scale.y
            && b.max.z - b.min.z == c.depth * t.scale.z
  {
  }

  /** `aabbOverlap`: the closed intervals meet on all three axes. */
  predicate AabbOverlap(a: Aabb, b: Aabb)
  {
    (a.min.x <= b.max.x && a.max.x >= b.min.x)
    && (a.min.y <= b.max.y && a.max.y >= b.min.y)
    && (a.min.z <= b.max.z && a.max.z >= b.min.z)
  }

  lemma AabbOverlapSymmetric(a: Aabb, b: Aabb)
    ensures AabbOverlap(a, b) == AabbOverlap(b, a)
  {
  }

  /** Every box overlaps itself, even a degenerate one of zero width. */
  lemma AabbOverlapReflexive(t: Transform, c: BoxCollider)
    requires c.width >= 0.0 && c.height >= 0.0 && c.depth >= 0.0
    requires t.scale.x >= 0.0 && t.scale.y >= 0.0 && t.scale.z >= 0.0
    ensures AabbOverlap(CalculateAabb(t, c), CalculateAabb(t, c))
  {
    var h := HalfExtents(t, c);
    assert c.width * t.scale.x >= 0.0 && c.height * t.scale.y >= 0.0 && c.depth * t.scale.z >= 0.0;
    assert h.x >= 0.0 && h.y >= 0.0 && h.z >= 0.0;
  }

  /**
   * The separation of the two boxes' centres less the sum of their
   * half-extents, per axis: positive where they interpenetrate, zero where
   * they touch.
   */
  function Penetrations(ta: Transform, ca: BoxCollider, tb: Transform, cb: BoxCollider): Vec3
  {
    var ha := HalfExtents(ta, ca);
    var hb := HalfExtents(tb, cb);
    Vec3(ha.x + hb.x - Abs(ta.position.x - tb.position.x),
         ha.y + hb.y - Abs(ta.position.y - tb.position.y),
         ha.z + hb.z - Abs(ta.position.z - tb.position.z))
  }

  /** Two boxes overlap inclusively exactly when no axis has a negative penetration. */
  lemma AabbOverlapIffPenetrations(ta: Transform, ca: BoxCollider, tb: Transform, cb: BoxCollider)
    ensures AabbOverlap(CalculateAabb(ta, ca), CalculateAabb(tb, cb)) <==>
              var p := Penetrations(ta, ca, tb, cb);
              p.x >= 0.0 && p.y >= 0.0 && p.z >= 0.0
  {
  }

  /**
   * `canEntitiesCollide`: the entities' own layers are never consulted; with
   * a layer callback installed the answer is the callback's for layers
   * (0, 0), otherwise every pair may collide.
   */
  function CanEntitiesCollide(canLayersInteract: Option<(nat, nat) -> bool>, a: nat, b: nat): (r: bool)
    ensures canLayersInteract.None? ==> r
  {
    match canLayersInteract
    case None => true
    case Some(f) => f(0, 0)
  }

  /** The answer is the same for every pair of entities. */
  lemma CanEntitiesCollideIgnoresEntities(canLayersInteract: Option<(nat, nat) -> bool>,
                                          a: nat, b: nat, c: nat, d: nat)
    ensures CanEntitiesCollide(canLayersInteract, a, b) == CanEntitiesCollide(canLayersInteract, c, d)
  {
  }

  /** The other entity of every contact naming `id`, in contact order. */
  function Partners(cs: seq<CollisionPair>, id: nat): (r: seq<nat>)
    ensures |r| <= |cs|
  {
    if cs == [] then []
    else
      var c := cs[|cs| - 1];
      Partners(cs[..|cs| - 1], id)
        + if c.entityA == id then [c.entityB] else if c.entityB == id then [c.entityA] else []
  }

  /** Whether some contact joins `a` and `b`, in either order. */
  ghost predicate Joined(cs: seq<CollisionPair>, a: nat, b: nat)
  {
    exists k :: 0 <= k < |cs| && ((cs[k].entityA == a && cs[k].entityB == b)
                                  || (cs[k].entityA == b && cs[k].entityB == a))
  }

  /** `getCollidingEntities`. */
  method CollidingEntities(cs: seq<CollisionPair>, id: nat) returns (r: seq<nat>)
    ensures r == Partners(cs, id)
  {
    r := [];
    var i := 0;
    while i < |cs|
      invariant i <= |cs|
      invariant r == Partners(cs[..i], id)
    {
      assert cs[..i + 1][..i] == cs[..i];
      var c := cs[i];
      if c.entityA == id {
        r := r + [c.entityB];
      } else if c.entityB == id {
        r := r + [c.entityA];
      }
      i := i + 1;
    }
    assert cs[..i] == cs;
  }

  /** `areEntitiesColliding`: stops at the first contact joining the two. */
  method EntitiesColliding(cs: seq<CollisionPair>, a: nat, b: nat) returns (found: bool)
    ensures found == Joined(cs, a, b)
  {
    var i := 0;
    while i < |cs|
      invariant i <= |cs|
      invariant forall k :: 0 <= k < i ==> !((cs[k].entityA == a && cs[k].entityB == b)
                                             || (cs[k].entityA == b && cs[k].entityB == a))
    {
      var c := cs[i];
      if (c.entityA == a && c.entityB == b) || (c.entityA == b && c.entityB == a) {
        return true;
      }
      i := i + 1;
    }
    found := false;
  }

  /**
   * The two queries agree: `b` is among the partners of `a` exactly when a
   * contact joins them; in particular the relation is symmetric.
   */
  lemma {:induction false} PartnersIffJoined(cs: seq<CollisionPair>, a: nat, b: nat)
    ensures b in Partners(cs, a) <==> Joined(cs, a, b)
    ensures Joined(cs, a, b) == Joined(cs, b, a)
    decreases |cs|
  {
    if cs != [] {
      var init := cs[..|cs| - 1];
      PartnersIffJoined(init, a, b);
      assert forall k :: 0 <= k < |init| ==> init[k] == cs[k];
    }
  }

  /** No contact names an id that appears in none of them. */
  lemma {:induction false} PartnersOfUnnamed(cs: seq<CollisionPair>, id: nat)
    requires forall k :: 0 <= k < |cs| ==> cs[k].entityA != id && cs[k].entityB != id
    ensures Partners(cs, id) == []
    decreases |cs|
  {
    if cs != [] {
      PartnersOfUnnamed(cs[..|cs| - 1], id);
    }
  }
}
