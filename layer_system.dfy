// The bitmask layer registry of the physics manager (`LayerSystem`): named
// layers with ids 1..63, layer 1 being "Default", and a 64-row interaction
// matrix that starts out all zero. A new layer is made to interact with
// itself and with "Default"; any other pair interacts only once it is set.
module LayerRegistry {
  import opened Common
  import opened LayerMasks

  /** No bit of the matrix names a layer that is not registered. */
  ghost predicate OnlyRegistered(m: seq<LayerMask>, idToName: map<nat, string>)
  {
    |m| == MaxLayers
    && forall x: nat, y: nat {:trigger Has(m[x], y)} :: x < MaxLayers && y < MaxLayers && Has(m[x], y) ==> x in idToName && y in idToName
  }

  /** The matrix after `initializeDefaultLayers` on a zeroed one: only Default with itself. */
  function DefaultOnly(): (r: seq<LayerMask>)
    ensures |r| == MaxLayers
  {
    WithInteraction(Uniform(NoBits()), DefaultLayer, DefaultLayer, true)
  }

  /** In the fresh matrix exactly the pair (Default, Default) interacts. */
  lemma DefaultOnlyMeaning(x: nat, y: nat)
    requires x < MaxLayers && y < MaxLayers
    ensures Has(DefaultOnly()[x], y) <==> x == DefaultLayer && y == DefaultLayer
  {
    UniformMeaning(NoBits());
    WithInteractionMeaning(Uniform(NoBits()), DefaultLayer, DefaultLayer, true, x, y);
  }

  /**
   * The three `setLayerInteraction` calls `createLayer` makes for a new id:
   * with itself, with Default, and Default with it.
   */
  function WithNewLayer(m: seq<LayerMask>, id: nat): (r: seq<LayerMask>)
    requires |m| == MaxLayers && id < MaxLayers
    ensures |r| == MaxLayers
  {
    WithInteraction(WithInteraction(WithInteraction(m, id, id, true), id, DefaultLayer, true), DefaultLayer, id, true)
  }

  /** A new layer gains exactly the pairs with itself and with Default, in both directions. */
  lemma WithNewLayerMeaning(m: seq<LayerMask>, id: nat, x: nat, y: nat)
    requires |m| == MaxLayers && id < MaxLayers && x < MaxLayers && y < MaxLayers
    ensures Has(WithNewLayer(m, id)[x], y)
            <==> (x == id && (y == id || y == DefaultLayer)) || (x == DefaultLayer && y == id) || Has(m[x], y)
  {
    var m1 := WithInteraction(m, id, id, true);
    var m2 := WithInteraction(m1, id, DefaultLayer, true);
    WithInteractionMeaning(m, id, id, true, x, y);
    WithInteractionMeaning(m1, id, DefaultLayer, true, x, y);
    WithInteractionMeaning(m2, DefaultLayer, id, true, x, y);
  }

  /** Setting a pair of registered layers keeps every bit on registered layers. */
  lemma InteractionKeepsOnlyRegistered(m: seq<LayerMask>, idToName: map<nat, string>, a: nat, b: nat, on: bool)
    requires OnlyRegistered(m, idToName) && a < MaxLayers && b < MaxLayers && a in idToName && b in idToName
    ensures OnlyRegistered(WithInteraction(m, a, b, on), idToName)
  {
    forall x: nat, y: nat | x < MaxLayers && y < MaxLayers && Has(WithInteraction(m, a, b, on)[x], y)
      ensures x in idToName && y in idToName
    {
      WithInteractionMeaning(m, a, b, on, x, y);
    }
  }

  /** Registering more layers keeps every bit on a registered layer. */
  lemma OnlyRegisteredGrow(m: seq<LayerMask>, ids: map<nat, string>, more: map<nat, string>)
    requires OnlyRegistered(m, ids) && ids.Keys <= more.Keys
    ensures OnlyRegistered(m, more)
  {
  }

  /**
   * The row of a layer that was not registered before `createLayer` holds
   * exactly itself and Default afterwards, and Default's row now holds it.
   */
  lemma NewLayerRow(before: seq<LayerMask>, ids: map<nat, string>, id: nat)
    requires OnlyRegistered(before, ids) && id !in ids && id < MaxLayers
    ensures forall y: nat :: y < MaxLayers ==> (Has(WithNewLayer(before, id)[id], y) <==> y == id || y == DefaultLayer)
    ensures Has(WithNewLayer(before, id)[DefaultLayer], id)
  {
    forall y: nat | y < MaxLayers
      ensures Has(WithNewLayer(before, id)[id], y) <==> y == id || y == DefaultLayer
    {
      WithNewLayerMeaning(before, id, id, y);
    }
    WithNewLayerMeaning(before, id, DefaultLayer, id);
  }

  class LayerSystem {
    var nextLayerId: nat
    var nameToId: map<string, nat>
    var idToName: map<nat, string>
    var matrix: seq<LayerMask>

    /**
     * The name tables are inverse, Default is always registered, the
     * matrix is symmetric and only names registered layers.
     */
    ghost predicate Valid()
      reads this
    {
      NamesValid(nameToId, idToName, nextLayerId) && 2 <= nextLayerId
      && DefaultLayer in idToName && idToName[DefaultLayer] == "Default"
      && Symmetric(matrix) && OnlyRegistered(matrix, idToName)
    }

    /** The constructor: only Default, interacting only with itself; the next id is 2. */
    constructor ()
      ensures Valid()
      ensures nextLayerId == DefaultLayer + 1
      ensures nameToId == map["Default" := DefaultLayer] && idToName == map[DefaultLayer := "Default"]
      ensures matrix == DefaultOnly()
    {
      nextLayerId := DefaultLayer + 1;
      nameToId := map["Default" := DefaultLayer];
      idToName := map[DefaultLayer := "Default"];
      matrix := DefaultOnly();
      new;
      FreshIsValid();
    }

    /** The fresh registry is valid. */
    lemma FreshIsValid()
      requires nextLayerId == DefaultLayer + 1
      requires nameToId == map["Default" := DefaultLayer] && idToName == map[DefaultLayer := "Default"]
      requires matrix == DefaultOnly()
      ensures Valid()
    {
      UniformMeaning(NoBits());
      WithInteractionKeepsSymmetric(Uniform(NoBits()), DefaultLayer, DefaultLayer, true);
      forall x: nat, y: nat | x < MaxLayers && y < MaxLayers && Has(matrix[x], y)
        ensures x in idToName && y in idToName
      {
        DefaultOnlyMeaning(x, y);
      }
    }

    /** `reset`: back to the state the constructor builds. */
    method Reset()
      modifies this
      ensures Valid()
      ensures nextLayerId == DefaultLayer + 1
      ensures nameToId == map["Default" := DefaultLayer] && idToName == map[DefaultLayer := "Default"]
      ensures matrix == DefaultOnly()
    {
      nextLayerId := DefaultLayer + 1;
      nameToId := map["Default" := DefaultLayer];
      idToName := map[DefaultLayer := "Default"];
      matrix := DefaultOnly();
      FreshIsValid();
    }

    /** `isValidLayer`. */
    predicate IsValidLayer(l: nat)
      reads this
    {
      LayerMasks.IsValidLayer(idToName, l)
    }

    /** `canLayersInteract`: both layers valid and the bit set. */
    predicate CanLayersInteract(a: nat, b: nat)
      reads this
      requires |matrix| == MaxLayers
    {
      IsValidLayer(a) && IsValidLayer(b) && Has(matrix[a], b)
    }

    /** Interaction is symmetric, and only valid layers interact. */
    lemma CanLayersInteractSymmetric(a: nat, b: nat)
      requires Valid()
      ensures CanLayersInteract(a, b) <==> CanLayersInteract(b, a)
      ensures CanLayersInteract(a, b) ==> IsValidLayer(a) && IsValidLayer(b)
    {
    }

    /**
     * `createLayer`: an empty name throws; a known name gives its id and
     * changes nothing; past the last id it throws; otherwise the next id is
     * registered and made to interact with itself and with Default.
     */
    method CreateLayer(name: string) returns (r: CreateResult)
      requires Valid()
      modifies this
      ensures Valid()
      ensures name == [] ==> r == Thrown(EmptyName)
      ensures name != [] && name in old(nameToId) ==> r == Created(old(nameToId)[name])
      ensures name != [] && name !in old(nameToId) && old(nextLayerId) >= MaxLayers ==> r == Thrown(LayerLimitReached)
      ensures r.Thrown? || name in old(nameToId) ==> unchanged(this)
      ensures name != [] && name !in old(nameToId) && old(nextLayerId) < MaxLayers ==>
                r == Created(old(nextLayerId)) && nextLayerId == old(nextLayerId) + 1
                && nameToId == old(nameToId)[name := r.id] && idToName == old(idToName)[r.id := name]
                && matrix == WithNewLayer(old(matrix), r.id)
                && (forall y: nat :: CanLayersInteract(r.id, y) <==> y == r.id || y == DefaultLayer)
                && CanLayersInteract(DefaultLayer, r.id)
    {
      if name == [] {
        return Thrown(EmptyName);
      }
      if name in nameToId {
        return Created(nameToId[name]);
      }
      if nextLayerId >= MaxLayers {
        return Thrown(LayerLimitReached);
      }
      var id := nextLayerId;
      RegisterKeepsNamesValid(nameToId, idToName, nextLayerId, name);
      nextLayerId := nextLayerId + 1;
      NewLayerRow(matrix, idToName, id);
      OnlyRegisteredGrow(matrix, idToName, idToName[id := name]);
      nameToId := nameToId[name := id];
      idToName := idToName[id := name];
      var m1 := WithInteraction(matrix, id, id, true);
      InteractionKeepsOnlyRegistered(matrix, idToName, id, id, true);
      WithInteractionKeepsSymmetric(matrix, id, id, true);
      var m2 := WithInteraction(m1, id, DefaultLayer, true);
      InteractionKeepsOnlyRegistered(m1, idToName, id, DefaultLayer, true);
      WithInteractionKeepsSymmetric(m1, id, DefaultLayer, true);
      InteractionKeepsOnlyRegistered(m2, idToName, DefaultLayer, id, true);
      WithInteractionKeepsSymmetric(m2, DefaultLayer, id, true);
      matrix := WithInteraction(m2, DefaultLayer, id, true);
      r := Created(id);
    }

    /** `getLayerByName`. */
    function GetLayerByName(name: string): (l: nat)
      reads this
      ensures name in nameToId ==> l == nameToId[name]
      ensures name !in nameToId ==> l == InvalidLayer
    {
      LayerByName(nameToId, name)
    }

    /** `getLayerName`. */
    function GetLayerName(l: nat): (name: string)
      reads this
      ensures l in idToName ==> name == idToName[l]
      ensures l !in idToName ==> name == ""
    {
      LayerName(idToName, l)
    }

    /**
     * `setLayerInteraction`: invalid layers throw and change nothing;
     * otherwise the pair is set, in both directions, to `canInteract`, and
     * every other pair is as before.
     */
    method SetLayerInteraction(a: nat, b: nat, canInteract: bool) returns (thrown: bool)
      requires Valid()
      modifies this
      ensures Valid()
      ensures thrown == !(IsValidLayer(a) && IsValidLayer(b))
      ensures nextLayerId == old(nextLayerId) && nameToId == old(nameToId) && idToName == old(idToName)
      ensures thrown ==> matrix == old(matrix)
      ensures !thrown ==> matrix == WithInteraction(old(matrix), a, b, canInteract)
      ensures !thrown ==> CanLayersInteract(a, b) == canInteract && CanLayersInteract(b, a) == canInteract
    {
      if !IsValidLayer(a) || !IsValidLayer(b) {
        return true;
      }
      InteractionKeepsOnlyRegistered(matrix, idToName, a, b, canInteract);
      WithInteractionKeepsSymmetric(matrix, a, b, canInteract);
      WithInteractionMeaning(matrix, a, b, canInteract, a, b);
      WithInteractionMeaning(matrix, a, b, canInteract, b, a);
      matrix := WithInteraction(matrix, a, b, canInteract);
      thrown := false;
    }

    /** `createLayerMask`: the layer's bit, 0 for an invalid layer. */
    function CreateLayerMask(l: nat): (mask: LayerMask)
      reads this
      ensures !IsValidLayer(l) ==> mask == NoBits()
      ensures forall c: nat :: TestLayerMask(mask, c) <==> IsValidLayer(l) && c == l
    {
      var mask := LayerMasks.CreateLayerMask(idToName, l);
      forall c: nat ensures TestLayerMask(mask, c) <==> IsValidLayer(l) && c == l {
        MaskMeaning(idToName, l, c, mask, mask);
      }
      mask
    }

    /** `combineLayerMasks`: bitwise or, testing true wherever either mask does. */
    function CombineLayerMasks(maskA: LayerMask, maskB: LayerMask): (mask: LayerMask)
      reads this
      ensures forall c: nat :: TestLayerMask(mask, c) <==> TestLayerMask(maskA, c) || TestLayerMask(maskB, c)
    {
      forall c: nat ensures TestLayerMask(Combine(maskA, maskB), c) <==> TestLayerMask(maskA, c) || TestLayerMask(maskB, c) {
        MaskMeaning(idToName, c, c, maskA, maskB);
      }
      Combine(maskA, maskB)
    }

    /** `testLayerMask`: false for an invalid layer, otherwise the layer's bit. */
    predicate TestLayerMask(mask: LayerMask, l: nat)
      reads this
    {
      LayerMasks.TestLayerMask(idToName, mask, l)
    }

    /** `getLayerCount`: the number of registered layers, which is also the number of names. */
    function GetLayerCount(): (n: nat)
      reads this
      requires Valid()
      ensures n == |idToName| && n == |nameToId|
      ensures n >= 1
    {
      InverseTablesSameSize(nameToId, idToName);
      |idToName|
    }
  }
}
