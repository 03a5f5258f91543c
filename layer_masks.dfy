// The 64-bit layer masks shared by the two bitmask layer registries: layer
// `l` is bit `l` of a mask, and the interaction matrix holds one mask per
// layer, row `a` having bit `b` set when `a` may interact with `b`.
//
// A `uint64_t` mask is modelled as the sequence of its 64 bits, entry `l`
// being bit `l`; the word operations the registries use (`1ULL << l`, `|`,
// `&`, `~`, comparison with 0) are defined bit by bit.
module LayerMasks {
  import opened Common

  /**
   * `INVALID_LAYER`, `DEFAULT_LAYER` and `MAX_LAYERS` as `PhysicsLayerWorker`
   * declares them; `LayerSystem`'s own header is not part of this model and
   * is taken to declare the same values.
   */
  const InvalidLayer: nat := 0
  const DefaultLayer: nat := 1
  const MaxLayers: nat := 64

  /** The exceptions `createLayer` throws. */
  datatype LayerError = EmptyName | LayerLimitReached

  /** What `createLayer` gives back: the layer id, or the exception it throws. */
  datatype CreateResult = Created(id: nat) | Thrown(error: LayerError)

  /** A 64-bit word, bit `l` at index `l`. */
  type LayerMask = m: seq<bool> | |m| == 64 witness seq(64, _ => false)

  /** The word 0. */
  function NoBits(): LayerMask { seq(64, _ => false) }

  /** `~0ULL`, every bit set. */
  function AllBits(): LayerMask { seq(64, _ => true) }

  /** `1ULL << l`. */
  function Bit(l: nat): LayerMask
    requires l < MaxLayers
  {
    seq(64, i => i == l)
  }

  /** `a | b`. */
  function Or(a: LayerMask, b: LayerMask): LayerMask
  {
    seq(64, i requires 0 <= i < 64 => a[i] || b[i])
  }

  /** `a & b`. */
  function And(a: LayerMask, b: LayerMask): LayerMask
  {
    seq(64, i requires 0 <= i < 64 => a[i] && b[i])
  }

  /** `~a`. */
  function Not(a: LayerMask): LayerMask
  {
    seq(64, i requires 0 <= i < 64 => !a[i])
  }

  /** `(mask & (1ULL << l)) != 0`. */
  predicate Has(mask: LayerMask, l: nat)
    requires l < MaxLayers
  {
    And(mask, Bit(l)) != NoBits()
  }

  /** The source's bit test reads exactly bit `l`. */
  lemma HasReadsBit(mask: LayerMask, l: nat)
    requires l < MaxLayers
    ensures Has(mask, l) <==> mask[l]
  {
    if mask[l] {
      assert And(mask, Bit(l))[l] != NoBits()[l];
    } else {
      assert And(mask, Bit(l)) == NoBits();
    }
  }

  /** A single-bit mask holds exactly its own layer. */
  lemma HasBit(l: nat, c: nat)
    requires l < MaxLayers && c < MaxLayers
    ensures Has(Bit(l), c) <==> c == l
  {
    HasReadsBit(Bit(l), c);
  }

  /** The empty mask holds no layer and the full mask every layer. */
  lemma HasNoneAll(c: nat)
    requires c < MaxLayers
    ensures !Has(NoBits(), c) && Has(AllBits(), c)
  {
    HasReadsBit(NoBits(), c);
    HasReadsBit(AllBits(), c);
  }

  /** Setting bit `b` adds exactly layer `b`. */
  lemma HasWith(mask: LayerMask, b: nat, c: nat)
    requires b < MaxLayers && c < MaxLayers
    ensures Has(Or(mask, Bit(b)), c) <==> c == b || Has(mask, c)
  {
    HasReadsBit(Or(mask, Bit(b)), c);
    HasReadsBit(mask, c);
  }

  /** Clearing bit `b` removes exactly layer `b`. */
  lemma HasWithout(mask: LayerMask, b: nat, c: nat)
    requires b < MaxLayers && c < MaxLayers
    ensures Has(And(mask, Not(Bit(b))), c) <==> c != b && Has(mask, c)
  {
    HasReadsBit(And(mask, Not(Bit(b))), c);
    HasReadsBit(mask, c);
  }

  /** One row after `row |= 1ULL << b` or `row &= ~(1ULL << b)`. */
  function Toggled(row: LayerMask, b: nat, on: bool): LayerMask
    requires b < MaxLayers
  {
    if on then Or(row, Bit(b)) else And(row, Not(Bit(b)))
  }

  /** Setting or clearing bit `b` changes exactly whether the row holds `b`. */
  lemma ToggledMeaning(row: LayerMask, b: nat, on: bool, c: nat)
    requires b < MaxLayers && c < MaxLayers
    ensures Has(Toggled(row, b, on), c) <==> if c == b then on else Has(row, c)
  {
    if on {
      HasWith(row, b, c);
    } else {
      HasWithout(row, b, c);
    }
  }

  /** `combineLayerMasks`: bitwise or. */
  function Combine(maskA: LayerMask, maskB: LayerMask): LayerMask
  {
    Or(maskA, maskB)
  }

  /** A combined mask holds exactly the layers either mask holds. */
  lemma CombineMeaning(maskA: LayerMask, maskB: LayerMask, c: nat)
    requires c < MaxLayers
    ensures Has(Combine(maskA, maskB), c) <==> Has(maskA, c) || Has(maskB, c)
  {
    HasReadsBit(Combine(maskA, maskB), c);
    HasReadsBit(maskA, c);
    HasReadsBit(maskB, c);
  }

  // ------------------------------------------------------------ the interaction matrix

  /** Row `a` with bit `b` set or cleared. */
  function SetBit(m: seq<LayerMask>, a: nat, b: nat, on: bool): (r: seq<LayerMask>)
    requires |m| == MaxLayers && a < MaxLayers && b < MaxLayers
    ensures |r| == MaxLayers
  {
    m[a := Toggled(m[a], b, on)]
  }

  /** Setting or clearing one bit changes exactly that entry of the matrix. */
  lemma SetBitMeaning(m: seq<LayerMask>, a: nat, b: nat, on: bool, x: nat, y: nat)
    requires |m| == MaxLayers && a < MaxLayers && b < MaxLayers && x < MaxLayers && y < MaxLayers
    ensures Has(SetBit(m, a, b, on)[x], y) <==> if x == a && y == b then on else Has(m[x], y)
  {
    if x == a {
      ToggledMeaning(m[a], b, on, y);
    }
  }

  /** `setLayerInteraction` on the matrix: bit `b` of row `a`, then bit `a` of row `b`. */
  function WithInteraction(m: seq<LayerMask>, a: nat, b: nat, canInteract: bool): (r: seq<LayerMask>)
    requires |m| == MaxLayers && a < MaxLayers && b < MaxLayers
    ensures |r| == MaxLayers
  {
    SetBit(SetBit(m, a, b, canInteract), b, a, canInteract)
  }

  /** The pair `{a, b}` is set, in both directions, exactly to `canInteract`; every other entry is as before. */
  lemma WithInteractionMeaning(m: seq<LayerMask>, a: nat, b: nat, canInteract: bool, x: nat, y: nat)
    requires |m| == MaxLayers && a < MaxLayers && b < MaxLayers && x < MaxLayers && y < MaxLayers
    ensures Has(WithInteraction(m, a, b, canInteract)[x], y) <==> if (x == a && y == b) || (x == b && y == a) then canInteract else Has(m[x], y)
  {
    SetBitMeaning(m, a, b, canInteract, x, y);
    SetBitMeaning(SetBit(m, a, b, canInteract), b, a, canInteract, x, y);
  }

  /** Every entry agrees with its mirror image. */
  ghost predicate Symmetric(m: seq<LayerMask>)
  {
    |m| == MaxLayers && forall x: nat, y: nat :: x < MaxLayers && y < MaxLayers ==> (Has(m[x], y) <==> Has(m[y], x))
  }

  /** Setting a pair in both directions keeps the matrix symmetric. */
  lemma WithInteractionKeepsSymmetric(m: seq<LayerMask>, a: nat, b: nat, canInteract: bool)
    requires Symmetric(m) && a < MaxLayers && b < MaxLayers
    ensures Symmetric(WithInteraction(m, a, b, canInteract))
  {
    var r := WithInteraction(m, a, b, canInteract);
    forall x: nat, y: nat | x < MaxLayers && y < MaxLayers ensures Has(r[x], y) <==> Has(r[y], x) {
      WithInteractionMeaning(m, a, b, canInteract, x, y);
      WithInteractionMeaning(m, a, b, canInteract, y, x);
    }
  }

  /** The matrix whose every row is `row`. */
  function Uniform(row: LayerMask): (r: seq<LayerMask>)
    ensures |r| == MaxLayers && forall i :: 0 <= i < MaxLayers ==> r[i] == row
  {
    seq(MaxLayers, _ => row)
  }

  /** In the all-zero matrix no pair interacts, in the all-ones matrix every pair; both are symmetric. */
  lemma UniformMeaning(row: LayerMask)
    requires row == NoBits() || row == AllBits()
    ensures forall x: nat, y: nat :: x < MaxLayers && y < MaxLayers ==> (Has(Uniform(row)[x], y) <==> row == AllBits())
    ensures Symmetric(Uniform(row))
  {
    forall x: nat, y: nat | x < MaxLayers && y < MaxLayers ensures Has(Uniform(row)[x], y) <==> row == AllBits() {
      HasNoneAll(y);
    }
  }

  // ------------------------------------------------------------ the name registry

  /**
   * The two name tables are inverse to each other, and every id is a real
   * layer id below the next one to allocate, which never passes the maximum.
   */
  ghost predicate NamesValid(nameToId: map<string, nat>, idToName: map<nat, string>, nextLayerId: nat)
  {
    nextLayerId <= MaxLayers
    && (forall n :: n in nameToId ==> nameToId[n] in idToName && idToName[nameToId[n]] == n)
    && (forall l :: l in idToName ==> idToName[l] in nameToId && nameToId[idToName[l]] == l)
    && (forall l :: l in idToName ==> 1 <= l < nextLayerId)
  }

  /** `isValidLayer`: not the invalid id, below the maximum, and registered. */
  predicate IsValidLayer(idToName: map<nat, string>, l: nat)
  {
    l != InvalidLayer && l < MaxLayers && l in idToName
  }

  /** `getLayerByName`: the registered id, or the invalid id. */
  function LayerByName(nameToId: map<string, nat>, name: string): (r: nat)
    ensures name !in nameToId ==> r == InvalidLayer
  {
    if name in nameToId then nameToId[name] else InvalidLayer
  }

  /** `getLayerName`: the registered name, or the empty string. */
  function LayerName(idToName: map<nat, string>, l: nat): (r: string)
    ensures l !in idToName ==> r == ""
  {
    if l in idToName then idToName[l] else ""
  }

  /**
   * Looking a registered name up and back gives the name again, and the id
   * found is a valid layer; the invalid id has no name.
   */
  lemma LookupRoundTrip(nameToId: map<string, nat>, idToName: map<nat, string>, nextLayerId: nat, name: string)
    requires NamesValid(nameToId, idToName, nextLayerId)
    ensures name in nameToId ==> LayerName(idToName, LayerByName(nameToId, name)) == name
    ensures name in nameToId ==> IsValidLayer(idToName, LayerByName(nameToId, name))
    ensures LayerName(idToName, InvalidLayer) == ""
  {
  }

  /** `createLayerMask`: the layer's bit, or 0 for an invalid layer. */
  function CreateLayerMask(idToName: map<nat, string>, l: nat): (r: LayerMask)
    ensures !IsValidLayer(idToName, l) ==> r == NoBits()
  {
    if !IsValidLayer(idToName, l) then NoBits() else Bit(l)
  }

  /** `testLayerMask`: false for an invalid layer, otherwise the layer's bit. */
  predicate TestLayerMask(idToName: map<nat, string>, mask: LayerMask, l: nat)
  {
    IsValidLayer(idToName, l) && Has(mask, l)
  }

  /**
   * A layer's own mask tests true on it and on no other layer; combining
   * masks tests true exactly where one of them does.
   */
  lemma MaskMeaning(idToName: map<nat, string>, l: nat, c: nat, maskA: LayerMask, maskB: LayerMask)
    ensures TestLayerMask(idToName, CreateLayerMask(idToName, l), c) <==> IsValidLayer(idToName, l) && c == l
    ensures TestLayerMask(idToName, Combine(maskA, maskB), c) <==> TestLayerMask(idToName, maskA, c) || TestLayerMask(idToName, maskB, c)
  {
    if IsValidLayer(idToName, c) {
      if IsValidLayer(idToName, l) {
        HasBit(l, c);
      } else {
        HasNoneAll(c);
      }
      CombineMeaning(maskA, maskB, c);
    }
  }

  /** Registering a fresh name under the next id keeps the tables inverse. */
  lemma RegisterKeepsNamesValid(nameToId: map<string, nat>, idToName: map<nat, string>, nextLayerId: nat, name: string)
    requires NamesValid(nameToId, idToName, nextLayerId) && name !in nameToId && 1 <= nextLayerId < MaxLayers
    ensures NamesValid(nameToId[name := nextLayerId], idToName[nextLayerId := name], nextLayerId + 1)
  {
  }

  /** Two name tables that are inverse to each other have the same size. */
  lemma {:induction false} InverseTablesSameSize(nameToId: map<string, nat>, idToName: map<nat, string>)
    requires forall n :: n in nameToId ==> nameToId[n] in idToName && idToName[nameToId[n]] == n
    requires forall l :: l in idToName ==> idToName[l] in nameToId && nameToId[idToName[l]] == l
    ensures |nameToId| == |idToName|
    decreases |nameToId|
  {
    if nameToId == map[] {
      assert idToName.Keys == {};
    } else {
      var n :| n in nameToId;
      var l := nameToId[n];
      var rest, restIds := nameToId - {n}, idToName - {l};
      forall n' | n' in rest ensures rest[n'] in restIds && restIds[rest[n']] == n' {
        assert nameToId[n'] != l;
      }
      InverseTablesSameSize(rest, restIds);
      assert rest.Keys == nameToId.Keys - {n};
      assert restIds.Keys == idToName.Keys - {l};
    }
  }
}
