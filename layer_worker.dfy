// The physics manager's layer worker (`PhysicsLayerWorker`): the same named
// layers as the registry, but the matrix starts out all ones, nothing is
// registered until `initialize`, new layers get no interaction update, and
// invalid layers are ignored rather than reported.
module PhysicsLayers {
  import opened Common
  import opened LayerMasks

  /** The fill loop of the constructor and of `reset`: every row set to `row`. */
  method FillMatrix(row: LayerMask) returns (m: seq<LayerMask>)
    ensures m == Uniform(row)
  {
    m := [];
    var i := 0;
    while i < MaxLayers
      invariant 0 <= i <= MaxLayers && |m| == i
      invariant forall k :: 0 <= k < i ==> m[k] == row
    {
      m := m + [row];
      i := i + 1;
    }
  }

  class PhysicsLayerWorker {
    var nextLayerId: nat
    var nameToId: map<string, nat>
    var idToName: map<nat, string>
    var matrix: seq<LayerMask>

    /** The name tables are inverse with ids below the next one, which is at least 2; the matrix is symmetric. */
    ghost predicate Valid()
      reads this
    {
      NamesValid(nameToId, idToName, nextLayerId) && 2 <= nextLayerId && Symmetric(matrix)
    }

    /** The constructor: no layer registered (not even Default), the next id 2, every pair allowed. */
    constructor ()
      ensures Valid()
      ensures nextLayerId == DefaultLayer + 1 && nameToId == map[] && idToName == map[]
      ensures matrix == Uniform(AllBits())
    {
      var m := FillMatrix(AllBits());
      UniformMeaning(AllBits());
      nextLayerId := DefaultLayer + 1;
      nameToId := map[];
      idToName := map[];
      matrix := m;
    }

    /** `reset`: no layer registered, the next id 2, every pair allowed. */
    method Reset()
      modifies this
      ensures Valid()
      ensures nextLayerId == DefaultLayer + 1 && nameToId == map[] && idToName == map[]
      ensures matrix == Uniform(AllBits())
    {
      var m := FillMatrix(AllBits());
      UniformMeaning(AllBits());
      nextLayerId := DefaultLayer + 1;
      nameToId := map[];
      idToName := map[];
      matrix := m;
    }

    /** `initialize`: reset, then register Default under id 1; always succeeds. */
    method Initialize() returns (ok: bool)
      modifies this
      ensures Valid() && ok
      ensures nextLayerId == DefaultLayer + 1
      ensures nameToId == map["Default" := DefaultLayer] && idToName == map[DefaultLayer := "Default"]
      ensures matrix == Uniform(AllBits())
    {
      Reset();
      nameToId := map["Default" := DefaultLayer];
      idToName := map[DefaultLayer := "Default"];
      ok := true;
    }

    /** `cleanup`: the same as `reset`. */
    method Cleanup()
      modifies this
      ensures Valid()
      ensures nextLayerId == DefaultLayer + 1 && nameToId == map[] && idToName == map[]
      ensures matrix == Uniform(AllBits())
    {
      Reset();
    }

    /** `isValidLayer`. */
    predicate IsValidLayer(l: nat)
      reads this
    {
      LayerMasks.IsValidLayer(idToName, l)
    }

    /** `canLayersInteract`: false for an invalid layer, otherwise the bit. */
    predicate CanLayersInteract(a: nat, b: nat)
      reads this
      requires |matrix| == MaxLayers
    {
      IsValidLayer(a) && IsValidLayer(b) && Has(matrix[a], b)
    }

    /** Interaction is symmetric, only valid layers interact, and on a reset matrix every valid pair does. */
    lemma CanLayersInteractMeaning(a: nat, b: nat)
      requires Valid()
      ensures CanLayersInteract(a, b) <==> CanLayersInteract(b, a)
      ensures CanLayersInteract(a, b) ==> IsValidLayer(a) && IsValidLayer(b)
      ensures matrix == Uniform(AllBits()) ==> (CanLayersInteract(a, b) <==> IsValidLayer(a) && IsValidLayer(b))
    {
      if matrix == Uniform(AllBits()) && IsValidLayer(a) && IsValidLayer(b) {
        UniformMeaning(AllBits());
      }
    }

    /**
     * `createLayer`: an empty name throws; a known name gives its id and
     * changes nothing; past the last id it throws; otherwise the next id is
     * registered and the matrix is left as it is.
     */
    method CreateLayer(name: string) returns (r: CreateResult)
      requires Valid()
      modifies this
      ensures Valid()
      ensures name == [] ==> r == Thrown(EmptyName)
      ensures name != [] && name in old(nameToId) ==> r == Created(old(nameToId)[name])
      ensures name != [] && name !in old(nameToId) && old(nextLayerId) >= MaxLayers ==> r == Thrown(LayerLimitReached)
      ensures r.Thrown? || name in old(nameToId) ==> unchanged(this)
      ensures name != [] && name !in old(nameToId) && old(nextLayerId) < MaxLayers ==>
                r == Created(old(nextLayerId)) && nextLayerId == old(nextLayerId) + 1
                && nameToId == old(nameToId)[name := r.id] && idToName == old(idToName)[r.id := name]
                && matrix == old(matrix) && DefaultLayer < r.id < MaxLayers
    {
      if name == [] {
        return Thrown(EmptyName);
      }
      if name in nameToId {
        return Created(nameToId[name]);
      }
      if nextLayerId >= MaxLayers {
        return Thrown(LayerLimitReached);
      }
      var id := nextLayerId;
      RegisterKeepsNamesValid(nameToId, idToName, nextLayerId, name);
      nextLayerId := nextLayerId + 1;
      nameToId := nameToId[name := id];
      idToName := idToName[id := name];
      r := Created(id);
    }

    /** `getLayerByName`. */
    function GetLayerByName(name: string): (l: nat)
      reads this
      ensures name in nameToId ==> l == nameToId[name]
      ensures name !in nameToId ==> l == InvalidLayer
    {
      LayerByName(nameToId, name)
    }

    /** `getLayerName`. */
    function GetLayerName(l: nat): (name: string)
      reads this
      ensures l in idToName ==> name == idToName[l]
      ensures l !in idToName ==> name == ""
    {
      LayerName(idToName, l)
    }

    /**
     * `setLayerInteraction`: a call naming an invalid layer does nothing;
     * otherwise the pair is set, in both directions, to `canInteract`.
     */
    method SetLayerInteraction(a: nat, b: nat, canInteract: bool)
      requires Valid()
      modifies this
      ensures Valid()
      ensures nextLayerId == old(nextLayerId) && nameToId == old(nameToId) && idToName == old(idToName)
      ensures !(IsValidLayer(a) && IsValidLayer(b)) ==> matrix == old(matrix)
      ensures IsValidLayer(a) && IsValidLayer(b) ==>
                matrix == WithInteraction(old(matrix), a, b, canInteract)
                && CanLayersInteract(a, b) == canInteract && CanLayersInteract(b, a) == canInteract
    {
      if !IsValidLayer(a) || !IsValidLayer(b) {
        return;
      }
      WithInteractionKeepsSymmetric(matrix, a, b, canInteract);
      WithInteractionMeaning(matrix, a, b, canInteract, a, b);
      WithInteractionMeaning(matrix, a, b, canInteract, b, a);
      matrix := WithInteraction(matrix, a, b, canInteract);
    }

    /** `createLayerMask`: the layer's bit, 0 for an invalid layer. */
    function CreateLayerMask(l: nat): (mask: LayerMask)
      reads this
      ensures !IsValidLayer(l) ==> mask == NoBits()
      ensures forall c: nat :: TestLayerMask(mask, c) <==> IsValidLayer(l) && c == l
    {
      var mask := LayerMasks.CreateLayerMask(idToName, l);
      forall c: nat ensures TestLayerMask(mask, c) <==> IsValidLayer(l) && c == l {
        MaskMeaning(idToName, l, c, mask, mask);
      }
      mask
    }

    /** `combineLayerMasks`: bitwise or, testing true wherever either mask does. */
    function CombineLayerMasks(maskA: LayerMask, maskB: LayerMask): (mask: LayerMask)
      reads this
      ensures forall c: nat :: TestLayerMask(mask, c) <==> TestLayerMask(maskA, c) || TestLayerMask(maskB, c)
    {
      forall c: nat ensures TestLayerMask(Combine(maskA, maskB), c) <==> TestLayerMask(maskA, c) || TestLayerMask(maskB, c) {
        MaskMeaning(idToName, c, c, maskA, maskB);
      }
      Combine(maskA, maskB)
    }

    /** `testLayerMask`: false for an invalid layer, otherwise the layer's bit. */
    predicate TestLayerMask(mask: LayerMask, l: nat)
      reads this
    {
      LayerMasks.TestLayerMask(idToName, mask, l)
    }

    /** `getLayerCount`: the number of names, 0 before `initialize` and after `cleanup`. */
    function GetLayerCount(): (n: nat)
      reads this
      requires Valid()
      ensures n == |nameToId| && n == |idToName|
      ensures nameToId == map[] ==> n == 0
    {
      InverseTablesSameSize(nameToId, idToName);
      |nameToId|
    }
  }
}
