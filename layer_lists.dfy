// The list-based layer registry the two `cpu_physics` front ends keep: each
// layer names the layers it may collide with in a list; enabling an
// interaction appends each layer to the other's list unless it is there
// already, and disabling erases it from both lists.
module LayerLists {
  import opened Common

  /** A collision layer with the ids of the layers it interacts with. */
  datatype PhysicsLayer = PhysicsLayer(id: nat, name: string, interactionLayers: seq<nat>)

  /** `canLayersInteract`: the first layer is registered and lists the second. */
  predicate LayersInteract(layers: map<nat, PhysicsLayer>, l1: nat, l2: nat)
  {
    l1 in layers && l2 in layers[l1].interactionLayers
  }

  /** `s.erase(std::remove(s.begin(), s.end(), x), s.end())`: every occurrence of `x` dropped, order kept. */
  function Without(s: seq<nat>, x: nat): (r: seq<nat>)
    ensures forall y :: y in r <==> y in s && y != x
    ensures |r| <= |s|
  {
    if s == [] then [] else (if s[0] == x then [] else [s[0]]) + Without(s[1..], x)
  }

  lemma {:induction false} WithoutNoDup(s: seq<nat>, x: nat)
    requires NoDup(s)
    ensures NoDup(Without(s, x))
    decreases |s|
  {
    if s != [] {
      HeadNotInTail(s);
      WithoutNoDup(s[1..], x);
      ConsNoDupIfAbsent(if s[0] == x then [] else [s[0]], Without(s[1..], x));
    }
  }

  /** Prepending nothing, or an element absent from the rest, keeps a list free of duplicates. */
  lemma ConsNoDupIfAbsent(h: seq<nat>, t: seq<nat>)
    requires |h| <= 1 && NoDup(t) && (forall y :: y in h ==> y !in t)
    ensures NoDup(h + t)
  {
    if |h| == 1 {
      assert h + t == [h[0]] + t;
      ConsNoDup(h[0], t);
    } else {
      assert h + t == t;
    }
  }

  /** Erasing an absent element changes nothing. */
  lemma {:induction false} WithoutAbsent(s: seq<nat>, x: nat)
    requires x !in s
    ensures Without(s, x) == s
    decreases |s|
  {
    if s != [] {
      WithoutAbsent(s[1..], x);
      assert [s[0]] + s[1..] == s;
    }
  }

  /** Layer `l`'s list with `other` appended unless it is there already. */
  function Linked(layers: map<nat, PhysicsLayer>, l: nat, other: nat): (r: map<nat, PhysicsLayer>)
    requires l in layers
    ensures r.Keys == layers.Keys
  {
    var s := layers[l].interactionLayers;
    layers[l := layers[l].(interactionLayers := if other in s then s else s + [other])]
  }

  /** Layer `l`'s list with every `other` erased. */
  function Unlinked(layers: map<nat, PhysicsLayer>, l: nat, other: nat): (r: map<nat, PhysicsLayer>)
    requires l in layers
    ensures r.Keys == layers.Keys
  {
    layers[l := layers[l].(interactionLayers := Without(layers[l].interactionLayers, other))]
  }

  /** `setLayerInteraction` on two registered layers, updating the first list and then the second. */
  function Interaction(layers: map<nat, PhysicsLayer>, l1: nat, l2: nat, canInteract: bool): (r: map<nat, PhysicsLayer>)
    requires l1 in layers && l2 in layers
    ensures r.Keys == layers.Keys
  {
    if canInteract then Linked(Linked(layers, l1, l2), l2, l1)
    else Unlinked(Unlinked(layers, l1, l2), l2, l1)
  }

  /** The variant that leaves out the second update when both layers are the same. */
  function InteractionOnce(layers: map<nat, PhysicsLayer>, l1: nat, l2: nat, canInteract: bool): (r: map<nat, PhysicsLayer>)
    requires l1 in layers && l2 in layers
  {
    if canInteract then
      var r1 := Linked(layers, l1, l2);
      if l1 != l2 then Linked(r1, l2, l1) else r1
    else
      var r1 := Unlinked(layers, l1, l2);
      if l1 != l2 then Unlinked(r1, l2, l1) else r1
  }

  /** Skipping the second update for a self-pair gives the same registry. */
  lemma InteractionOnceAgrees(layers: map<nat, PhysicsLayer>, l1: nat, l2: nat, canInteract: bool)
    requires l1 in layers && l2 in layers
    ensures InteractionOnce(layers, l1, l2, canInteract) == Interaction(layers, l1, l2, canInteract)
  {
    if l1 == l2 {
      if canInteract {
        var r1 := Linked(layers, l1, l2);
        assert l1 in r1[l2].interactionLayers;
        assert r1[l2].(interactionLayers := r1[l2].interactionLayers) == r1[l2];
        assert Linked(r1, l2, l1) == r1[l2 := r1[l2]];
      } else {
        var r1 := Unlinked(layers, l1, l2);
        WithoutAbsent(r1[l2].interactionLayers, l1);
        assert r1[l2].(interactionLayers := r1[l2].interactionLayers) == r1[l2];
        assert Unlinked(r1, l2, l1) == r1[l2 := r1[l2]];
      }
    }
  }

  /**
   * After `setLayerInteraction(l1, l2, c)` the two layers interact, in both
   * directions, exactly when `c`; every other pair interacts as before, and
   * no layer's id or name changes.
   */
  lemma InteractionMeaning(layers: map<nat, PhysicsLayer>, l1: nat, l2: nat, canInteract: bool)
    requires l1 in layers && l2 in layers
    ensures var r := Interaction(layers, l1, l2, canInteract);
            forall a, b :: LayersInteract(r, a, b)
              <==> if (a == l1 && b == l2) || (a == l2 && b == l1) then canInteract
                   else LayersInteract(layers, a, b)
    ensures var r := Interaction(layers, l1, l2, canInteract);
            forall k :: k in layers ==> r[k].id == layers[k].id && r[k].name == layers[k].name
  {
  }

  /** Repeating a `setLayerInteraction` changes nothing more. */
  lemma InteractionIdempotent(layers: map<nat, PhysicsLayer>, l1: nat, l2: nat, canInteract: bool)
    requires l1 in layers && l2 in layers
    ensures var r := Interaction(layers, l1, l2, canInteract);
            Interaction(r, l1, l2, canInteract) == r
  {
    var r := Interaction(layers, l1, l2, canInteract);
    InteractionMeaning(layers, l1, l2, canInteract);
    if canInteract {
      assert l2 in r[l1].interactionLayers && l1 in r[l2].interactionLayers;
      assert r[l1].(interactionLayers := r[l1].interactionLayers) == r[l1];
      assert Linked(r, l1, l2) == r[l1 := r[l1]];
      assert r[l2].(interactionLayers := r[l2].interactionLayers) == r[l2];
      assert Linked(r, l2, l1) == r[l2 := r[l2]];
    } else {
      assert l2 !in r[l1].interactionLayers && l1 !in r[l2].interactionLayers;
      WithoutAbsent(r[l1].interactionLayers, l2);
      assert Unlinked(r, l1, l2) == r[l1 := r[l1]];
      WithoutAbsent(r[l2].interactionLayers, l1);
      assert Unlinked(r, l2, l1) == r[l2 := r[l2]];
    }
  }

  /**
   * The registry invariant: layers are keyed by their own ids, which lie
   * below the next id to allocate, and each list names registered layers
   * without repetition.
   */
  ghost predicate WellFormed(layers: map<nat, PhysicsLayer>, nextLayerId: nat)
  {
    forall l :: l in layers ==>
      1 <= l < nextLayerId && layers[l].id == l && NoDup(layers[l].interactionLayers)
      && forall y :: y in layers[l].interactionLayers ==> y in layers
  }

  /** Interaction goes both ways. */
  ghost predicate Symmetric(layers: map<nat, PhysicsLayer>)
  {
    forall a, b :: LayersInteract(layers, a, b) ==> LayersInteract(layers, b, a)
  }

  /** Layer 0 is never registered, so it interacts with nothing and nothing with it. */
  lemma LayerZeroInteractsWithNothing(layers: map<nat, PhysicsLayer>, nextLayerId: nat, l: nat)
    requires WellFormed(layers, nextLayerId)
    ensures !LayersInteract(layers, 0, l) && !LayersInteract(layers, l, 0)
  {
  }

  /** Registering the next id, with an empty list or one naming itself, keeps the invariant and the symmetry. */
  lemma NewLayerKeepsWellFormed(layers: map<nat, PhysicsLayer>, nextLayerId: nat, name: string, selfInteracts: bool)
    requires WellFormed(layers, nextLayerId) && 1 <= nextLayerId
    ensures var r := layers[nextLayerId := PhysicsLayer(nextLayerId, name, if selfInteracts then [nextLayerId] else [])];
            WellFormed(r, nextLayerId + 1) && (Symmetric(layers) ==> Symmetric(r))
  {
    var r := layers[nextLayerId := PhysicsLayer(nextLayerId, name, if selfInteracts then [nextLayerId] else [])];
    forall a, b | LayersInteract(r, a, b) && Symmetric(layers)
      ensures LayersInteract(r, b, a)
    {
      if a != nextLayerId && b != nextLayerId {
        assert LayersInteract(layers, a, b);
      }
    }
  }

  /** `setLayerInteraction` keeps the invariant and the symmetry. */
  lemma InteractionKeepsWellFormed(layers: map<nat, PhysicsLayer>, nextLayerId: nat, l1: nat, l2: nat,
                                   canInteract: bool)
    requires WellFormed(layers, nextLayerId) && l1 in layers && l2 in layers
    ensures var r := Interaction(layers, l1, l2, canInteract);
            WellFormed(r, nextLayerId) && (Symmetric(layers) ==> Symmetric(r))
  {
    InteractionMeaning(layers, l1, l2, canInteract);
    if canInteract {
      LinkedKeepsWellFormed(layers, nextLayerId, l1, l2);
      LinkedKeepsWellFormed(Linked(layers, l1, l2), nextLayerId, l2, l1);
    } else {
      UnlinkedKeepsWellFormed(layers, nextLayerId, l1, l2);
      UnlinkedKeepsWellFormed(Unlinked(layers, l1, l2), nextLayerId, l2, l1);
    }
  }

  lemma LinkedKeepsWellFormed(layers: map<nat, PhysicsLayer>, nextLayerId: nat, l: nat, other: nat)
    requires WellFormed(layers, nextLayerId) && l in layers && other in layers
    ensures WellFormed(Linked(layers, l, other), nextLayerId)
  {
    var s := layers[l].interactionLayers;
    if other !in s {
      SnocNoDup(s, other);
    }
  }

  lemma UnlinkedKeepsWellFormed(layers: map<nat, PhysicsLayer>, nextLayerId: nat, l: nat, other: nat)
    requires WellFormed(layers, nextLayerId) && l in layers
    ensures WellFormed(Unlinked(layers, l, other), nextLayerId)
  {
    WithoutNoDup(layers[l].interactionLayers, other);
  }

  /** Appending an absent element keeps a list free of duplicates. */
  lemma SnocNoDup(s: seq<nat>, x: nat)
    requires NoDup(s) && x !in s
    ensures NoDup(s + [x])
  {
    var r := s + [x];
    forall i, j | 0 <= i < j < |r| ensures r[i] != r[j] {
      if j == |s| {
        assert r[i] == s[i];
      } else {
        assert r[i] == s[i] && r[j] == s[j];
      }
    }
  }
}
