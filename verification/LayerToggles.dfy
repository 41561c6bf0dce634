/** Toggle keys: a layer is on after an odd number of presses. */
module LayerToggles {
  import opened Keycodes
  import opened Layers
  import opened Batches
  import opened BatchEffects
  import opened LayerCounts

  /** The code is TG(l), by its bits. */
  predicate IsToggle(code: bv16, l: nat) {
    code & 0xFF60 == 0x5220 && (code & 0x1F) as nat == l
  }

  /** Layer codes are toggle codes. */
  predicate Toggling(code: bv16) {
    code & 0xFF00 == 0x5200 ==> code & 0xFF60 == 0x5220
  }

  predicate AllToggling(codes: seq<bv16>) { forall i :: 0 <= i < |codes| ==> Toggling(codes[i]) }

  /** How many of the flagged positions below `k` the layer pass reaches as TG(l). */
  function Toggles(keymap: seq<bv16>, s: Latch, flags: seq<bool>, k: nat, l: nat): (n: nat)
    requires s.layers.Valid() && k <= |flags| == |s.active|
  {
    if k == 0 then 0
    else
      var t := Sweep(PressingLayers(keymap), s, flags, k - 1);
      Toggles(keymap, s, flags, k - 1, l)
      + if flags[k - 1] && IsToggle(Resolve(t.layers, keymap, |s.active|, k - 1), l) then 1 else 0
  }

  lemma ZeroToggling(code: bv16)
    ensures Toggling(0)
    ensures Toggling(code) && IsLayerCode(code) ==> IsToggle(code, LayerOf(code)) && ActionOf(code) == TG
    ensures !IsLayerCode(code) ==> forall l :: !IsToggle(code, l)
    ensures forall l :: IsToggle(code, l) ==> l == LayerOf(code)
  {
    CodeBits(code);
    LayerFits(code);
  }

  lemma PressToggles(v: LayerView, code: bv16, l: nat)
    requires v.Valid() && Toggling(code) && l < v.count
    ensures (l in Press(v, code).mask) == ((l in v.mask) != IsToggle(code, l))
  {
    hide IsLayerCode, ActionOf, LayerOf;
    ZeroToggling(code);
    hide IsToggle, Toggling;
  }

  lemma ReleaseToggles(v: LayerView, code: bv16)
    requires v.Valid() && Toggling(code)
    ensures Release(v, code) == v
  {
    hide IsLayerCode, ActionOf, LayerOf;
    ZeroToggling(code);
  }

  lemma StepToggling(pass: Pass, s: Latch, p: nat)
    requires s.layers.Valid() && p < |s.active| && AllToggling(s.active)
    requires !pass.Releasing? ==> AllToggling(pass.keymap)
    ensures var r := StepAt(pass, s, p);
            && AllToggling(r.active)
            && (!pass.PressingLayers? ==> r.layers == s.layers)
            && (pass.PressingLayers? ==> forall l :: 0 <= l < s.layers.count ==>
                  (l in r.layers.mask)
                  == ((l in s.layers.mask) != IsToggle(Resolve(s.layers, pass.keymap, |s.active|, p), l)))
  {
    hide IsLayerCode, ActionOf, LayerOf, Resolve, Classify, Toggling, IsToggle, Press, Release;
    ZeroToggling(0);
    if pass.Releasing? {
      ReleaseToggles(s.layers, s.active[p]);
    } else {
      var code := Resolve(s.layers, pass.keymap, |s.active|, p);
      ResolvedFromKeymap(s.layers, pass.keymap, |s.active|, p, 32);
      ResolveIsBelow(s.layers, pass.keymap, |s.active|, p);
      ZeroToggling(code);
      if pass.PressingLayers? {
        forall l | 0 <= l < s.layers.count
          ensures (l in Press(s.layers, code).mask) == ((l in s.layers.mask) != IsToggle(code, l))
        {
          PressToggles(s.layers, code, l);
        }
      }
    }
  }

  lemma {:induction false} SweepToggling(pass: Pass, s: Latch, flags: seq<bool>, k: nat)
    requires s.layers.Valid() && k <= |flags| == |s.active| && AllToggling(s.active)
    requires !pass.Releasing? ==> AllToggling(pass.keymap)
    ensures var r := Sweep(pass, s, flags, k);
            && AllToggling(r.active)
            && (!pass.PressingLayers? ==> r.layers == s.layers)
            && (pass.PressingLayers? ==> forall l :: 0 <= l < s.layers.count ==>
                  (l in r.layers.mask)
                  == ((l in s.layers.mask) != (Toggles(pass.keymap, s, flags, k, l) % 2 == 1)))
  {
    hide AllToggling, StepAt, IsToggle, Resolve;
    if k == 0 {
    } else {
      SweepToggling(pass, s, flags, k - 1);
      if flags[k - 1] {
        StepToggling(pass, Sweep(pass, s, flags, k - 1), k - 1);
      }
    }
  }

  /** A batch flips a layer once for every key that its layer pass reaches as TG(l). */
  lemma BatchToggles(s: Latch, released: seq<bool>, pressed: seq<bool>, keymap: seq<bv16>, l: nat)
    requires s.layers.Valid() && |released| == |pressed| == |s.active| && AllToggling(s.active) && AllToggling(keymap)
    requires l < s.layers.count
    ensures var r := Batch(s, released, pressed, keymap);
            && AllToggling(r.active)
            && (l in r.layers.mask)
               == ((l in s.layers.mask)
                   != (Toggles(keymap, AfterReleases(s, released), pressed, |pressed|, l) % 2 == 1))
  {
    hide AllToggling, Sweep, Toggles;
    var n := |s.active|;
    var a, b := AfterReleases(s, released), Reaching(s, released, pressed, keymap, n);
    SweepToggling(Releasing, s, released, n);
    SweepToggling(PressingLayers(keymap), a, pressed, n);
    SweepToggling(PressingRest(keymap), b, pressed, n);
  }
}
