/** Layer reference counts against the momentary codes that are latched. */
module LayerCounts {
  import opened Keycodes
  import opened Layers
  import opened Batches
  import opened Places

  // ----- what a sweep does to the latched codes

  lemma {:induction false} SweepLocal(pass: Pass, s: Latch, flags: seq<bool>, k: nat)
    requires s.layers.Valid() && k <= |flags| == |s.active|
    ensures var r := Sweep(pass, s, flags, k);
            && (forall p :: 0 <= p < |flags| && (p >= k || !flags[p]) ==> r.active[p] == s.active[p])
            && (pass.Releasing? ==> forall p :: 0 <= p < k && flags[p] ==> r.active[p] == 0)
  {
    hide Release, Press, Resolve, IsLayerCode, Classify;
    if k == 0 {
    } else {
      SweepLocal(pass, s, flags, k - 1);
    }
  }

  // ----- reference counts against latched keys

  predicate IsMomentary(code: bv16, l: nat) {
    IsLayerCode(code) && ActionOf(code) == MO && LayerOf(code) == l
  }

  /** How many positions have MO(l) latched. */
  function Holders(active: seq<bv16>, l: nat): (n: nat)
    ensures n <= |active|
  {
    if active == [] then 0
    else Holders(active[..|active| - 1], l) + if IsMomentary(active[|active| - 1], l) then 1 else 0
  }

  lemma {:induction false} HoldersUpdate(active: seq<bv16>, p: nat, code: bv16, l: nat)
    requires p < |active|
    ensures Holders(active[p := code], l) + (if IsMomentary(active[p], l) then 1 else 0)
            == Holders(active, l) + (if IsMomentary(code, l) then 1 else 0)
  {
    hide IsMomentary;
    var n := |active| - 1;
    var changed := active[p := code];
    if p == n {
      assert changed[..n] == active[..n];
    } else {
      assert changed[..n] == active[..n][p := code];
      HoldersUpdate(active[..n], p, code, l);
    }
  }

  /** A position without the code leaves room in the count. */
  lemma {:induction false} HoldersBelow(active: seq<bv16>, p: nat, l: nat)
    requires p < |active| && !IsMomentary(active[p], l)
    ensures Holders(active, l) < |active|
  {
    hide IsMomentary;
    if p == |active| - 1 {
    } else {
      HoldersBelow(active[..|active| - 1], p, l);
    }
  }

  lemma ZeroIsNoLayer(l: nat)
    ensures !IsMomentary(0, l)
  {
  }

  /** No layer is counted more often than it is held. */
  predicate RefsBounded(s: Latch)
    requires s.layers.Valid()
  {
    forall l :: 0 <= l < s.layers.count ==> s.layers.refs[l] <= Holders(s.active, l)
  }

  lemma ReleaseBounded(s: Latch, p: nat)
    requires s.layers.Valid() && p < |s.active| && RefsBounded(s)
    ensures RefsBounded(StepAt(Releasing, s, p))
  {
    hide IsLayerCode, ActionOf, LayerOf, Holders;
    forall l | 0 <= l < 32
      ensures Holders(s.active[p := 0], l) + (if IsMomentary(s.active[p], l) then 1 else 0) == Holders(s.active, l)
    {
      HoldersUpdate(s.active, p, 0, l);
      ZeroIsNoLayer(l);
    }
  }

  lemma PressBounded(s: Latch, keymap: seq<bv16>, p: nat)
    requires s.layers.Valid() && p < |s.active| <= 255 && RefsBounded(s) && s.active[p] == 0
    ensures RefsBounded(StepAt(PressingLayers(keymap), s, p))
    ensures RefsBounded(StepAt(PressingRest(keymap), s, p))
  {
    hide IsLayerCode, ActionOf, LayerOf, Holders, Resolve, Classify;
    var code := Resolve(s.layers, keymap, |s.active|, p);
    forall l | 0 <= l < 32
      ensures Holders(s.active, l) < 255
              && Holders(s.active[p := code], l) == Holders(s.active, l) + (if IsMomentary(code, l) then 1 else 0)
      ensures Holders(s.active[p := 0], l) == Holders(s.active, l)
    {
      ZeroIsNoLayer(l);
      HoldersBelow(s.active, p, l);
      HoldersUpdate(s.active, p, code, l);
      HoldersUpdate(s.active, p, 0, l);
    }
  }

  /** A momentary press meets a count with room, so it counts one more and does not wrap. */
  lemma PressNoWrap(s: Latch, keymap: seq<bv16>, p: nat, l: nat)
    requires s.layers.Valid() && p < |s.active| <= 255 && RefsBounded(s) && s.active[p] == 0
    requires l < s.layers.count && IsMomentary(Resolve(s.layers, keymap, |s.active|, p), l)
    ensures s.layers.refs[l] < 255
    ensures StepAt(PressingLayers(keymap), s, p).layers.refs[l] == s.layers.refs[l] + 1
  {
    hide IsLayerCode, ActionOf, LayerOf, Holders, Resolve, Classify;
    ZeroIsNoLayer(l);
    HoldersBelow(s.active, p, l);
  }

  lemma {:induction false} SweepBounded(pass: Pass, s: Latch, flags: seq<bool>, k: nat)
    requires s.layers.Valid() && k <= |flags| == |s.active| <= 255 && RefsBounded(s)
    requires pass.PressingLayers? ==> forall p :: 0 <= p < |flags| && flags[p] ==> s.active[p] == 0
    ensures RefsBounded(Sweep(pass, s, flags, k))
  {
    hide RefsBounded;
    if k == 0 {
    } else {
      SweepBounded(pass, s, flags, k - 1);
      SweepLocal(pass, s, flags, k - 1);
      var t := Sweep(pass, s, flags, k - 1);
      if flags[k - 1] {
        match pass
        case Releasing => ReleaseBounded(t, k - 1);
        case PressingLayers(keymap) => PressBounded(t, keymap, k - 1);
        case PressingRest(keymap) =>
          if t.active[k - 1] == 0 {
            PressBounded(t, keymap, k - 1);
          }
      }
    }
  }

  /** Whenever the layer pass reaches a momentary key, its count goes up by exactly one. */
  lemma SweepNoWrap(keymap: seq<bv16>, s: Latch, flags: seq<bool>, p: nat, l: nat)
    requires s.layers.Valid() && p < |flags| == |s.active| <= 255 && flags[p] && RefsBounded(s)
    requires forall q :: 0 <= q < |flags| && flags[q] ==> s.active[q] == 0
    requires l < s.layers.count
    requires var t := Sweep(PressingLayers(keymap), s, flags, p);
             IsMomentary(Resolve(t.layers, keymap, |s.active|, p), l)
    ensures var t := Sweep(PressingLayers(keymap), s, flags, p);
            && t.layers.refs[l] < 255
            && Sweep(PressingLayers(keymap), s, flags, p + 1).layers.refs[l] == t.layers.refs[l] + 1
  {
    hide IsMomentary, Resolve, StepAt, RefsBounded;
    SweepBounded(PressingLayers(keymap), s, flags, p);
    SweepLocal(PressingLayers(keymap), s, flags, p);
    PressNoWrap(Sweep(PressingLayers(keymap), s, flags, p), keymap, p, l);
  }

  /** Layers that do not exist are never counted. */
  predicate Unused(v: LayerView)
    requires v.Valid()
  {
    forall l :: v.count <= l < 32 ==> v.refs[l] == 0
  }

  lemma StepUnused(pass: Pass, s: Latch, p: nat)
    requires s.layers.Valid() && p < |s.active| && Unused(s.layers)
    ensures Unused(StepAt(pass, s, p).layers)
  {
    hide IsLayerCode, ActionOf, LayerOf, Resolve, Classify;
  }

  lemma {:induction false} SweepUnused(pass: Pass, s: Latch, flags: seq<bool>, k: nat)
    requires s.layers.Valid() && k <= |flags| == |s.active| && Unused(s.layers)
    ensures Unused(Sweep(pass, s, flags, k).layers)
  {
    hide Unused, StepAt;
    if k == 0 {
    } else {
      SweepUnused(pass, s, flags, k - 1);
      if flags[k - 1] {
        StepUnused(pass, Sweep(pass, s, flags, k - 1), k - 1);
      }
    }
  }

  // ----- layers that only momentary and default-layer keys touch

  predicate Plain(code: bv16) {
    IsLayerCode(code) ==> ActionOf(code) == MO || ActionOf(code) == DF
  }

  predicate AllPlain(codes: seq<bv16>) { forall i :: 0 <= i < |codes| ==> Plain(codes[i]) }

  /** A layer is active exactly while its count is positive. */
  predicate MaskCounts(v: LayerView)
    requires v.Valid()
  {
    && (forall l :: l in v.mask ==> 0 <= l < 32)
    && (forall l :: 0 <= l < 32 ==> (l in v.mask <==> v.refs[l] > 0))
  }

  lemma {:induction false} ResolvedFromKeymap(v: LayerView, keymap: seq<bv16>, n: nat, pos: nat, top: nat)
    ensures ResolveBelow(v, keymap, n, pos, top) == 0 || ResolveBelow(v, keymap, n, pos, top) in keymap
  {
    hide Place;
    if top == 0 {
    } else {
      ResolvedFromKeymap(v, keymap, n, pos, top - 1);
    }
  }

  lemma StepMask(pass: Pass, s: Latch, p: nat)
    requires s.layers.Valid() && p < |s.active| <= 255 && MaskCounts(s.layers) && RefsBounded(s) && AllPlain(s.active)
    requires pass.PressingLayers? ==> AllPlain(pass.keymap) && s.active[p] == 0
    requires pass.PressingRest? ==> AllPlain(pass.keymap)
    ensures var r := StepAt(pass, s, p); MaskCounts(r.layers) && AllPlain(r.active)
  {
    hide IsLayerCode, ActionOf, LayerOf, Holders, Resolve, Classify, Plain;
    var r := StepAt(pass, s, p);
    ZeroPlain();
    if !pass.Releasing? {
      var code := Resolve(s.layers, pass.keymap, |s.active|, p);
      ResolvedFromKeymap(s.layers, pass.keymap, |s.active|, p, 32);
      ResolveIsBelow(s.layers, pass.keymap, |s.active|, p);
      if pass.PressingLayers? {
        ZeroIsNoLayer(LayerOf(code));
        HoldersBelow(s.active, p, LayerOf(code));
        PlainPress(s.layers, code);
      }
    } else {
      PlainRelease(s.layers, s.active[p]);
    }
  }

  lemma ZeroPlain()
    ensures Plain(0)
  {
  }

  lemma ResolveIsBelow(v: LayerView, keymap: seq<bv16>, n: nat, pos: nat)
    ensures Resolve(v, keymap, n, pos) == ResolveBelow(v, keymap, n, pos, 32)
  {
  }

  lemma PlainPress(v: LayerView, code: bv16)
    requires v.Valid() && MaskCounts(v) && Plain(code) && (LayerOf(code) < v.count ==> v.refs[LayerOf(code)] < 255)
    ensures MaskCounts(Press(v, code))
  {
    hide IsLayerCode, ActionOf, LayerOf;
  }

  lemma PlainRelease(v: LayerView, code: bv16)
    requires v.Valid() && MaskCounts(v)
    ensures MaskCounts(Release(v, code))
  {
    hide IsLayerCode, ActionOf, LayerOf;
  }

  lemma {:induction false} SweepMask(pass: Pass, s: Latch, flags: seq<bool>, k: nat)
    requires s.layers.Valid() && k <= |flags| == |s.active| <= 255
    requires MaskCounts(s.layers) && RefsBounded(s) && AllPlain(s.active)
    requires pass.PressingLayers? ==>
               AllPlain(pass.keymap) && forall p :: 0 <= p < |flags| && flags[p] ==> s.active[p] == 0
    requires pass.PressingRest? ==> AllPlain(pass.keymap)
    ensures var r := Sweep(pass, s, flags, k); MaskCounts(r.layers) && AllPlain(r.active)
  {
    hide MaskCounts, RefsBounded, AllPlain, StepAt;
    if k == 0 {
    } else {
      SweepMask(pass, s, flags, k - 1);
      SweepBounded(pass, s, flags, k - 1);
      SweepLocal(pass, s, flags, k - 1);
      if flags[k - 1] {
        StepMask(pass, Sweep(pass, s, flags, k - 1), k - 1);
      }
    }
  }
}
