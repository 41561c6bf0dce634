/** Layer state: reference counts, transient mask and default layer. A 32-bit mask is
    the set of its one bits. */
module Layers {
  import opened Keycodes
  import opened Places

  type Count = n: nat | n < 256

  /** Eight-bit counters wrap. */
  function Increment(c: Count): Count {
    if c == 255 then 0 else c + 1
  }

  datatype LayerView = LayerView(mask: set<nat>, refs: seq<Count>, count: nat, defaultLayer: nat) {
    predicate Valid() { |refs| == 32 && count <= 32 }
  }

  /** A layer key goes down. */
  function Press(v: LayerView, code: bv16): (r: LayerView)
    requires v.Valid()
    ensures r.Valid() && r.count == v.count
  {
    var l := LayerOf(code);
    if !IsLayerCode(code) || l >= v.count then v
    else match ActionOf(code)
      case MO => v.(refs := v.refs[l := Increment(v.refs[l])], mask := v.mask + {l})
      case TG => v.(mask := (v.mask - {l}) + ({l} - v.mask))
      case TO => v.(mask := {l}, refs := seq(32, i requires 0 <= i < 32 => if i < v.count then 0 else v.refs[i]))
      case DF => v.(defaultLayer := l)
  }

  /** A layer key comes up: only a momentary layer counts. */
  function Release(v: LayerView, code: bv16): (r: LayerView)
    requires v.Valid()
    ensures r.Valid() && r.count == v.count
  {
    var l := LayerOf(code);
    if !IsLayerCode(code) || l >= v.count || ActionOf(code) != MO || v.refs[l] == 0 then v
    else v.(refs := v.refs[l := v.refs[l] - 1], mask := if v.refs[l] == 1 then v.mask - {l} else v.mask)
  }

  /** A press by the bits of its code, 0x5200 and two action bits above five layer bits. A
      momentary key puts its layer on and counts one, a toggle key flips its layer, a
      switch-to key leaves exactly its layer on and no count of an existing one, a default
      key moves what lookups fall back to; nothing else changes, and no other code or layer
      does anything. */
  lemma PressBits(v: LayerView, code: bv16)
    requires v.Valid()
    ensures var l, r := (code & 0x1F) as nat, Press(v, code);
            if code & 0xFF00 != 0x5200 || l >= v.count then r == v
            else
              && (code & 0x60 == 0x00 ==>
                    r == v.(mask := v.mask + {l}, refs := v.refs[l := if v.refs[l] == 255 then 0 else v.refs[l] + 1]))
              && (code & 0x60 == 0x20 ==>
                    && r == v.(mask := r.mask) && (l in r.mask <==> l !in v.mask)
                    && (forall k :: k != l ==> (k in r.mask <==> k in v.mask)))
              && (code & 0x60 == 0x40 ==>
                    && r == v.(mask := {l}, refs := r.refs)
                    && forall k :: 0 <= k < 32 ==> r.refs[k] == if k < v.count then 0 else v.refs[k])
              && (code & 0x60 == 0x60 ==> r == v.(defaultLayer := l))
  {
    CodeBits(code);
    LayerFits(code);
  }

  /** A second press of a toggle key undoes the first. */
  lemma ToggleTwice(v: LayerView, code: bv16)
    requires v.Valid() && code & 0xFF60 == 0x5220
    ensures Press(Press(v, code), code) == v
  {
    ToggleBits(code);
    PressBits(v, code);
    PressBits(Press(v, code), code);
    if (code & 0x1F) as nat < v.count {
      assert Press(Press(v, code), code).mask == v.mask;
    }
  }

  lemma ToggleBits(code: bv16)
    requires code & 0xFF60 == 0x5220
    ensures code & 0xFF00 == 0x5200 && code & 0x60 == 0x20
  {
  }

  lemma CodeBits(code: bv16)
    ensures IsLayerCode(code) <==> code & 0xFF00 == 0x5200
    ensures ActionOf(code) == if code & 0x60 == 0x00 then MO else if code & 0x60 == 0x20 then TG
                              else if code & 0x60 == 0x40 then TO else DF
    ensures LayerOf(code) == (code & 0x1F) as nat
  {
  }

  /** A release by the bits of its code: only a momentary key of an existing layer counts
      down, and its layer goes off with the last one. */
  lemma ReleaseBits(v: LayerView, code: bv16)
    requires v.Valid()
    ensures var l, r := (code & 0x1F) as nat, Release(v, code);
            if code & 0xFF60 != 0x5200 || l >= v.count || v.refs[l] == 0 then r == v
            else r == v.(refs := v.refs[l := v.refs[l] - 1], mask := if v.refs[l] == 1 then v.mask - {l} else v.mask)
  {
    CodeBits(code);
    LayerFits(code);
    MomentaryBits(code);
  }

  lemma MomentaryBits(code: bv16)
    ensures code & 0xFF60 == 0x5200 <==> code & 0xFF00 == 0x5200 && code & 0x60 == 0x00
  {
  }

  /** Layers are `n` cells each; cells beyond the keymap do not exist. */
  function CodeAt(keymap: seq<bv16>, n: nat, layer: nat, pos: nat): bv16 {
    if Place(layer, n, pos) < |keymap| then keymap[Place(layer, n, pos)] else 0
  }

  /** The highest active layer below `top` that is not transparent at the position, else
      the default layer. */
  function ResolveBelow(v: LayerView, keymap: seq<bv16>, n: nat, pos: nat, top: nat): bv16 {
    if top == 0 then
      if v.defaultLayer < v.count then CodeAt(keymap, n, v.defaultLayer, pos) else 0
    else if top - 1 in v.mask && top - 1 < v.count && CodeAt(keymap, n, top - 1, pos) != 0x0001 then
      CodeAt(keymap, n, top - 1, pos)
    else ResolveBelow(v, keymap, n, pos, top - 1)
  }

  function Resolve(v: LayerView, keymap: seq<bv16>, n: nat, pos: nat): bv16 {
    ResolveBelow(v, keymap, n, pos, 32)
  }

  /** Layer `l` decides a position: active, opaque there, and no higher layer is both. */
  predicate Decides(v: LayerView, keymap: seq<bv16>, n: nat, pos: nat, l: nat) {
    && l in v.mask && l < v.count && CodeAt(keymap, n, l, pos) != 0x0001
    && forall h :: l < h < v.count && h in v.mask ==> CodeAt(keymap, n, h, pos) == 0x0001
  }

  /** Lookup without the loop: the deciding layer's code, or the default layer's when no
      active layer is opaque at the position. */
  lemma {:induction false} ResolveMeaning(v: LayerView, keymap: seq<bv16>, n: nat, pos: nat, top: nat)
    requires v.count <= 32 && top <= 32
    requires forall h :: top <= h < v.count && h in v.mask ==> CodeAt(keymap, n, h, pos) == 0x0001
    ensures forall l :: Decides(v, keymap, n, pos, l) ==>
              ResolveBelow(v, keymap, n, pos, top) == CodeAt(keymap, n, l, pos)
    ensures (forall l :: 0 <= l < v.count && l in v.mask ==> CodeAt(keymap, n, l, pos) == 0x0001) ==>
              ResolveBelow(v, keymap, n, pos, top)
              == if v.defaultLayer < v.count then CodeAt(keymap, n, v.defaultLayer, pos) else 0
  {
    hide CodeAt;
    if top == 0 {
    } else {
      if top - 1 in v.mask && top - 1 < v.count && CodeAt(keymap, n, top - 1, pos) != 0x0001 {
        assert forall l :: Decides(v, keymap, n, pos, l) ==> l == top - 1;
      } else {
        ResolveMeaning(v, keymap, n, pos, top - 1);
      }
    }
  }

  class LayerState {
    var transientMask: set<nat>
    const refCounts: array<Count>
    var layerCount: nat
    var defaultLayer: nat

    ghost predicate Valid()
      reads this
    {
      refCounts.Length == 32 && layerCount <= 32
    }

    ghost function View(): (v: LayerView)
      requires Valid()
      reads this, refCounts
      ensures v.Valid()
    {
      LayerView(transientMask, refCounts[..], layerCount, defaultLayer)
    }

    constructor (layers: nat)
      requires layers <= 32
      ensures Valid() && fresh(refCounts) && View() == LayerView({}, seq(32, _ => 0), layers, 0)
    {
      transientMask, layerCount, defaultLayer := {}, layers, 0;
      refCounts := new Count[32](_ => 0);
    }

    method ApplyLayerPress(code: bv16)
      requires Valid()
      modifies this, refCounts
      ensures Valid() && View() == Press(old(View()), code)
    {
      if !IsLayerCode(code) {
        return;
      }
      var layer := LayerOf(code);
      if layer >= layerCount {
        return;
      }
      match ActionOf(code)
      case MO =>
        refCounts[layer] := Increment(refCounts[layer]);
        transientMask := transientMask + {layer};
      case TG =>
        transientMask := (transientMask - {layer}) + ({layer} - transientMask);
      case TO =>
        transientMask := {layer};
        for i := 0 to layerCount
          invariant Valid() && layerCount == old(layerCount) && transientMask == {layer}
                    && defaultLayer == old(defaultLayer)
          invariant forall k :: 0 <= k < 32 ==> refCounts[k] == if k < i then 0 else old(refCounts[k])
        {
          refCounts[i] := 0;
        }
      case DF =>
        defaultLayer := layer;
    }

    method ApplyLayerRelease(code: bv16)
      requires Valid()
      modifies this, refCounts
      ensures Valid() && View() == Release(old(View()), code)
    {
      if !IsLayerCode(code) {
        return;
      }
      var layer := LayerOf(code);
      if layer >= layerCount {
        return;
      }
      if ActionOf(code) == MO {
        if refCounts[layer] > 0 {
          refCounts[layer] := refCounts[layer] - 1;
          if refCounts[layer] == 0 {
            transientMask := transientMask - {layer};
          }
        }
      }
    }

    /** The loop over the mask from bit 31 down. */
    method ResolveCode(keymap: seq<bv16>, n: nat, pos: nat) returns (code: bv16)
      requires Valid() && pos < n && |keymap| == Place(layerCount, n, 0)
      ensures code == Resolve(View(), keymap, n, pos)
    {
      hide Place;
      var i := 32;
      while i > 0
        invariant 0 <= i <= 32
        invariant Resolve(View(), keymap, n, pos) == ResolveBelow(View(), keymap, n, pos, i)
      {
        i := i - 1;
        if i in transientMask && i < layerCount {
          CellExists(keymap, n, i, pos);
          code := keymap[Place(i, n, pos)];
          if code == 0x0000 {
            return;
          }
          if code != 0x0001 {
            return;
          }
        }
      }
      if defaultLayer < layerCount {
        CellExists(keymap, n, defaultLayer, pos);
        return keymap[Place(defaultLayer, n, pos)];
      }
      code := 0x0000;
    }

    lemma CellExists(keymap: seq<bv16>, n: nat, layer: nat, pos: nat)
      requires pos < n && layer < layerCount && |keymap| == Place(layerCount, n, 0)
      ensures Place(layer, n, pos) < |keymap|
    {
      PlaceBelow(layer, layerCount, n, pos);
    }
  }
}
