/** What a whole batch does, position by position, and when it leaves a momentary key
    latched without its layer. */
module BatchEffects {
  import opened Keycodes
  import opened Layers
  import opened Batches
  import opened LayerCounts

  /** What a pass leaves at a flagged position is decided when the pass reaches it. */
  lemma {:induction false} SweepAt(pass: Pass, s: Latch, flags: seq<bool>, k: nat, p: nat)
    requires s.layers.Valid() && p < k <= |flags| == |s.active| && flags[p]
    ensures Sweep(pass, s, flags, k).active[p] == StepAt(pass, Sweep(pass, s, flags, p), p).active[p]
  {
    hide Release, Press, Resolve, IsLayerCode, Classify;
    if p == k - 1 {
    } else {
      SweepAt(pass, s, flags, k - 1, p);
    }
  }

  lemma {:induction false} RestKeepsLayers(keymap: seq<bv16>, s: Latch, flags: seq<bool>, k: nat)
    requires s.layers.Valid() && k <= |flags| == |s.active|
    ensures Sweep(PressingRest(keymap), s, flags, k).layers == s.layers
  {
    hide Resolve, Classify;
    if k == 0 {
    } else {
      RestKeepsLayers(keymap, s, flags, k - 1);
    }
  }

  predicate Disjoint(released: seq<bool>, pressed: seq<bool>)
    requires |released| == |pressed|
  {
    forall p :: 0 <= p < |pressed| && pressed[p] ==> !released[p]
  }

  predicate FreeAt(flags: seq<bool>, active: seq<bv16>)
    requires |flags| == |active|
  {
    forall p :: 0 <= p < |flags| && flags[p] ==> active[p] == 0
  }

  function AfterReleases(s: Latch, released: seq<bool>): (r: Latch)
    requires s.layers.Valid() && |released| == |s.active|
    ensures r.layers.Valid() && |r.active| == |s.active| && r.layers.count == s.layers.count
  {
    Sweep(Releasing, s, released, |released|)
  }

  /** The state when the second pass reaches position `p`. */
  function Reaching(s: Latch, released: seq<bool>, pressed: seq<bool>, keymap: seq<bv16>, p: nat): (r: Latch)
    requires s.layers.Valid() && |released| == |pressed| == |s.active| && p <= |pressed|
    ensures r.layers.Valid() && |r.active| == |s.active| && r.layers.count == s.layers.count
  {
    Sweep(PressingLayers(keymap), AfterReleases(s, released), pressed, p)
  }

  predicate ActsEarly(code: bv16) { IsLayerCode(code) || Classify(code) == Boot }

  function Kept(code: bv16): bv16 { if code == 0x0000 || code == 0x0001 then 0 else code }

  /** Releases clear, untouched positions stay, a layer or boot key is latched under the
      layers its predecessors left, and every other press is resolved against the layers
      that hold once the whole batch is through. */
  lemma BatchLatches(s: Latch, released: seq<bool>, pressed: seq<bool>, keymap: seq<bv16>, p: nat)
    requires s.layers.Valid() && |released| == |pressed| == |s.active| && p < |s.active|
    requires Disjoint(released, pressed) && FreeAt(pressed, s.active)
    ensures var r := Batch(s, released, pressed, keymap);
            var early := Resolve(Reaching(s, released, pressed, keymap, p).layers, keymap, |s.active|, p);
            r.active[p] == if released[p] then 0
                           else if !pressed[p] then s.active[p]
                           else if ActsEarly(early) then early
                           else Kept(Resolve(r.layers, keymap, |s.active|, p))
    ensures Batch(s, released, pressed, keymap).layers == Reaching(s, released, pressed, keymap, |pressed|).layers
  {
    hide Resolve, Press, Release, Sweep, IsLayerCode, Classify;
    var n := |s.active|;
    var a, b := AfterReleases(s, released), Reaching(s, released, pressed, keymap, n);
    RestKeepsLayers(keymap, b, pressed, n);
    SweepLocal(Releasing, s, released, n);
    SweepLocal(PressingLayers(keymap), a, pressed, n);
    SweepLocal(PressingLayers(keymap), a, pressed, p);
    SweepLocal(PressingRest(keymap), b, pressed, n);
    SweepLocal(PressingRest(keymap), b, pressed, p);
    if pressed[p] {
      SweepAt(PressingLayers(keymap), a, pressed, n, p);
      SweepAt(PressingRest(keymap), b, pressed, n, p);
      RestKeepsLayers(keymap, b, pressed, p);
      CodeFacts(Resolve(Reaching(s, released, pressed, keymap, p).layers, keymap, n, p));
      CodeFacts(Resolve(b.layers, keymap, n, p));
    }
  }

  lemma CodeFacts(code: bv16)
    ensures ActsEarly(code) ==> code != 0
    ensures code == 0 <==> Classify(code) == NoKey
    ensures code == 1 <==> Classify(code) == Transparent
  {
  }

  lemma {:induction false} SweepBootsMeans(pass: Pass, s: Latch, flags: seq<bool>, k: nat)
    requires s.layers.Valid() && k <= |flags| == |s.active|
    ensures SweepBoots(pass, s, flags, k) <==>
            exists p :: 0 <= p < k && flags[p] && BootsAt(pass, Sweep(pass, s, flags, p), p)
  {
    hide BootsAt, StepAt;
    if k == 0 {
    } else {
      SweepBootsMeans(pass, s, flags, k - 1);
    }
  }

  /** The batch asks for the bootloader exactly when a pressed position ends with a boot code. */
  lemma BootsMeans(s: Latch, released: seq<bool>, pressed: seq<bool>, keymap: seq<bv16>)
    requires s.layers.Valid() && |released| == |pressed| == |s.active|
    requires Disjoint(released, pressed) && FreeAt(pressed, s.active)
    ensures BatchBoots(s, released, pressed, keymap) <==>
            exists p :: 0 <= p < |pressed| && pressed[p]
                && Classify(Batch(s, released, pressed, keymap).active[p]) == Boot
  {
    hide Resolve, Press, Release, Sweep, SweepBoots, IsLayerCode, Classify, StepAt, Batch;
    var n := |s.active|;
    var a, b := AfterReleases(s, released), Reaching(s, released, pressed, keymap, n);
    SweepBootsMeans(PressingLayers(keymap), a, pressed, n);
    SweepBootsMeans(PressingRest(keymap), b, pressed, n);
    SweepLocal(Releasing, s, released, n);
    forall p | 0 <= p < n && pressed[p]
      ensures Classify(Batch(s, released, pressed, keymap).active[p]) == Boot <==>
              BootsAt(PressingLayers(keymap), Sweep(PressingLayers(keymap), a, pressed, p), p)
              || BootsAt(PressingRest(keymap), Sweep(PressingRest(keymap), b, pressed, p), p)
    {
      BootsAtPosition(s, released, pressed, keymap, p);
    }
    BatchBootsParts(s, released, pressed, keymap);
  }

  lemma BatchBootsParts(s: Latch, released: seq<bool>, pressed: seq<bool>, keymap: seq<bv16>)
    requires s.layers.Valid() && |released| == |pressed| == |s.active|
    ensures BatchBoots(s, released, pressed, keymap)
            == (SweepBoots(PressingLayers(keymap), AfterReleases(s, released), pressed, |pressed|)
                || SweepBoots(PressingRest(keymap), Reaching(s, released, pressed, keymap, |pressed|), pressed,
                   |pressed|))
  {
    hide Sweep, SweepBoots;
  }

  lemma BootsAtPosition(s: Latch, released: seq<bool>, pressed: seq<bool>, keymap: seq<bv16>, p: nat)
    requires s.layers.Valid() && |released| == |pressed| == |s.active| && p < |s.active| && pressed[p]
    requires Disjoint(released, pressed) && FreeAt(pressed, s.active)
    ensures var b := Reaching(s, released, pressed, keymap, |pressed|);
            Classify(Batch(s, released, pressed, keymap).active[p]) == Boot <==>
            BootsAt(PressingLayers(keymap), Reaching(s, released, pressed, keymap, p), p)
            || BootsAt(PressingRest(keymap), Sweep(PressingRest(keymap), b, pressed, p), p)
  {
    hide Resolve, Press, Release, Sweep, SweepBoots, IsLayerCode, Classify, Batch;
    var n := |s.active|;
    var a, b := AfterReleases(s, released), Reaching(s, released, pressed, keymap, n);
    BatchLatches(s, released, pressed, keymap, p);
    SweepLocal(Releasing, s, released, n);
    SweepLocal(PressingLayers(keymap), a, pressed, n);
    SweepLocal(PressingLayers(keymap), a, pressed, p);
    SweepAt(PressingLayers(keymap), a, pressed, n, p);
    SweepLocal(PressingRest(keymap), b, pressed, p);
    RestKeepsLayers(keymap, b, pressed, p);
    var early := Resolve(Reaching(s, released, pressed, keymap, p).layers, keymap, n, p);
    var late := Resolve(b.layers, keymap, n, p);
    BootFacts(early);
    BootFacts(late);
  }

  lemma BootFacts(code: bv16)
    ensures IsLayerCode(code) ==> Classify(code) != Boot && code != 0
    ensures Classify(code) == Boot ==> code != 0 && code != 1
    ensures Classify(0) != Boot
  {
  }

  // ----- when counts stay exact

  /** Every layer is counted exactly as often as it is held. */
  predicate Exact(s: Latch)
    requires s.layers.Valid()
  {
    forall l :: 0 <= l < s.layers.count ==> s.layers.refs[l] == Holders(s.active, l)
  }

  /** A switch-to key for an existing layer is pressed while some layer is held: it resets
      counts that still have holders. */
  predicate Wipes(t: Latch, keymap: seq<bv16>, p: nat)
    requires p < |t.active|
  {
    var code := Resolve(t.layers, keymap, |t.active|, p);
    && IsLayerCode(code) && ActionOf(code) == TO && LayerOf(code) < t.layers.count
    && exists l :: 0 <= l < t.layers.count && Holders(t.active, l) > 0
  }

  lemma HoldersSteps(s: Latch, p: nat, code: bv16)
    requires p < |s.active| <= 255
    ensures forall l :: 0 <= l < 32 ==>
              Holders(s.active[p := code], l) + (if IsMomentary(s.active[p], l) then 1 else 0)
              == Holders(s.active, l) + (if IsMomentary(code, l) then 1 else 0)
    ensures forall l :: 0 <= l < 32 && !IsMomentary(s.active[p], l) ==> Holders(s.active, l) < 255
    ensures forall l :: 0 <= l < 32 ==> !IsMomentary(0, l)
  {
    hide IsMomentary, Holders;
    forall l | 0 <= l < 32
      ensures Holders(s.active[p := code], l) + (if IsMomentary(s.active[p], l) then 1 else 0)
              == Holders(s.active, l) + (if IsMomentary(code, l) then 1 else 0)
      ensures !IsMomentary(s.active[p], l) ==> Holders(s.active, l) < 255
    {
      HoldersUpdate(s.active, p, code, l);
      if !IsMomentary(s.active[p], l) {
        HoldersBelow(s.active, p, l);
      }
    }
    forall l | 0 <= l < 32 ensures !IsMomentary(0, l) {
      ZeroIsNoLayer(l);
    }
  }

  lemma ReleaseExact(s: Latch, p: nat)
    requires s.layers.Valid() && p < |s.active| <= 255 && Exact(s)
    ensures Exact(StepAt(Releasing, s, p))
  {
    hide IsLayerCode, ActionOf, LayerOf, Holders;
    HoldersSteps(s, p, 0);
  }

  /** A layer or boot key keeps counts exact exactly when it wipes no held layer. */
  lemma PressExact(s: Latch, keymap: seq<bv16>, p: nat)
    requires s.layers.Valid() && p < |s.active| <= 255 && RefsBounded(s) && s.active[p] == 0
    ensures Exact(StepAt(PressingLayers(keymap), s, p)) <==> Exact(s) && !Wipes(s, keymap, p)
  {
    hide IsLayerCode, ActionOf, LayerOf, Holders, Resolve, Classify;
    var code := Resolve(s.layers, keymap, |s.active|, p);
    HoldersSteps(s, p, code);
    var r := StepAt(PressingLayers(keymap), s, p);
    if IsLayerCode(code) && ActionOf(code) == TO && LayerOf(code) < s.layers.count {
      SwitchExact(s, code, p, r);
    } else {
      OtherExact(s, code, p);
    }
  }

  /** After a switch-to every count is zero, so it is exact exactly when nothing is held. */
  lemma SwitchExact(s: Latch, code: bv16, p: nat, r: Latch)
    requires s.layers.Valid() && p < |s.active| <= 255 && RefsBounded(s) && s.active[p] == 0
    requires IsLayerCode(code) && ActionOf(code) == TO && LayerOf(code) < s.layers.count
    requires r == Latch(s.active[p := code], Press(s.layers, code))
    ensures Exact(r) <==> forall l :: 0 <= l < s.layers.count ==> Holders(s.active, l) == 0
    ensures Exact(r) ==> Exact(s)
  {
    hide IsLayerCode, ActionOf, LayerOf, Holders;
    HoldersSteps(s, p, code);
    forall l | 0 <= l < s.layers.count
      ensures r.layers.refs[l] == 0 && Holders(r.active, l) == Holders(s.active, l)
              && s.layers.refs[l] <= Holders(s.active, l)
    {
    }
    if Exact(r) {
      forall l | 0 <= l < s.layers.count ensures Holders(s.active, l) == 0 {
        assert r.layers.refs[l] == Holders(r.active, l);
      }
    } else {
      var l :| 0 <= l < r.layers.count && r.layers.refs[l] != Holders(r.active, l);
      assert Holders(s.active, l) > 0;
    }
  }

  lemma OtherExact(s: Latch, code: bv16, p: nat)
    requires s.layers.Valid() && p < |s.active| <= 255 && RefsBounded(s) && s.active[p] == 0
    requires !(IsLayerCode(code) && ActionOf(code) == TO && LayerOf(code) < s.layers.count)
    ensures IsLayerCode(code) ==> (Exact(Latch(s.active[p := code], Press(s.layers, code))) <==> Exact(s))
    ensures !IsLayerCode(code) ==> (Exact(s.(active := s.active[p := code])) <==> Exact(s))
  {
    hide IsLayerCode, ActionOf, LayerOf, Holders;
    HoldersSteps(s, p, code);
    var r := if IsLayerCode(code) then Latch(s.active[p := code], Press(s.layers, code))
          else s.(active := s.active[p := code]);
    assert forall l :: 0 <= l < s.layers.count ==>
      r.layers.refs[l] - s.layers.refs[l] == Holders(r.active, l) - Holders(s.active, l);
  }

  lemma {:induction false} ReleasesExact(s: Latch, flags: seq<bool>, k: nat)
    requires s.layers.Valid() && k <= |flags| == |s.active| <= 255 && Exact(s)
    ensures Exact(Sweep(Releasing, s, flags, k))
  {
    hide Exact, StepAt;
    if k == 0 {
    } else {
      ReleasesExact(s, flags, k - 1);
      if flags[k - 1] {
        ReleaseExact(Sweep(Releasing, s, flags, k - 1), k - 1);
      }
    }
  }

  /** The layer pass keeps counts exact if and only if none of its keys wipes a held layer. */
  lemma {:induction false} LayersExact(keymap: seq<bv16>, s: Latch, flags: seq<bool>, k: nat)
    requires s.layers.Valid() && k <= |flags| == |s.active| <= 255 && RefsBounded(s) && FreeAt(flags, s.active)
    ensures Exact(Sweep(PressingLayers(keymap), s, flags, k)) <==>
            && Exact(s)
            && forall p :: 0 <= p < k && flags[p] ==> !Wipes(Sweep(PressingLayers(keymap), s, flags, p), keymap, p)
  {
    hide Exact, StepAt, RefsBounded, Wipes;
    if k == 0 {
    } else {
      LayersExact(keymap, s, flags, k - 1);
      SweepBounded(PressingLayers(keymap), s, flags, k - 1);
      SweepLocal(PressingLayers(keymap), s, flags, k - 1);
      if flags[k - 1] {
        PressExact(Sweep(PressingLayers(keymap), s, flags, k - 1), keymap, k - 1);
      }
    }
  }

  /** The third pass finds MO(l) at a position that the second pass left without a code. */
  predicate Unapplied(b: Latch, keymap: seq<bv16>, p: nat, l: nat)
    requires p < |b.active|
  {
    b.active[p] == 0 && IsMomentary(Resolve(b.layers, keymap, |b.active|, p), l)
  }

  lemma RestStep(keymap: seq<bv16>, t: Latch, p: nat, l: nat)
    requires t.layers.Valid() && p < |t.active|
    ensures Holders(StepAt(PressingRest(keymap), t, p).active, l)
            == Holders(t.active, l) + if Unapplied(t, keymap, p, l) then 1 else 0
  {
    hide IsMomentary, Holders, Resolve, Classify;
    var code := Resolve(t.layers, keymap, |t.active|, p);
    HoldersUpdate(t.active, p, code, l);
    HoldersUpdate(t.active, p, 0, l);
    MomentaryFacts(code, l);
  }

  lemma {:induction false} RestHolders(keymap: seq<bv16>, b: Latch, flags: seq<bool>, k: nat, l: nat)
    requires b.layers.Valid() && k <= |flags| == |b.active|
    ensures Holders(Sweep(PressingRest(keymap), b, flags, k).active, l) >= Holders(b.active, l)
    ensures Holders(Sweep(PressingRest(keymap), b, flags, k).active, l) == Holders(b.active, l) <==>
            forall p :: 0 <= p < k && flags[p] ==> !Unapplied(b, keymap, p, l)
  {
    hide IsMomentary, Holders, Resolve, StepAt;
    if k == 0 {
    } else {
      RestHolders(keymap, b, flags, k - 1, l);
      RestKeepsLayers(keymap, b, flags, k - 1);
      SweepLocal(PressingRest(keymap), b, flags, k - 1);
      RestStep(keymap, Sweep(PressingRest(keymap), b, flags, k - 1), k - 1, l);
    }
  }

  lemma MomentaryFacts(code: bv16, l: nat)
    ensures !IsMomentary(0, l)
    ensures IsMomentary(code, l) ==> Classify(code) != NoKey && Classify(code) != Transparent
  {
  }

  /** Something in the batch leaves counts inexact: a switch-to key wipes a held layer, or the
      third pass finds a momentary code for an existing layer. */
  predicate Miscounts(s: Latch, released: seq<bool>, pressed: seq<bool>, keymap: seq<bv16>)
    requires s.layers.Valid() && |released| == |pressed| == |s.active|
  {
    || (exists p :: 0 <= p < |pressed| && pressed[p] && Wipes(Reaching(s, released, pressed, keymap, p), keymap, p))
    || (exists p, l :: 0 <= p < |pressed| && pressed[p] && 0 <= l < s.layers.count
          && Unapplied(Reaching(s, released, pressed, keymap, |pressed|), keymap, p, l))
  }

  /** Any batch on exact counts leaves them exact if and only if it does not miscount. */
  lemma CountsStayExact(s: Latch, released: seq<bool>, pressed: seq<bool>, keymap: seq<bv16>)
    requires s.layers.Valid() && |released| == |pressed| == |s.active| <= 255
    requires Disjoint(released, pressed) && FreeAt(pressed, s.active) && Exact(s)
    ensures Exact(Batch(s, released, pressed, keymap)) <==> !Miscounts(s, released, pressed, keymap)
  {
    hide Exact, Holders, Unapplied, Wipes, Sweep, Press, Release, RefsBounded;
    var n := |s.active|;
    var a, b := AfterReleases(s, released), Reaching(s, released, pressed, keymap, n);
    ReleasesExact(s, released, n);
    ExactBounded(a);
    SweepLocal(Releasing, s, released, n);
    LayersExact(keymap, a, pressed, n);
    SweepBounded(PressingLayers(keymap), a, pressed, n);
    RestExact(keymap, b, pressed);
  }

  lemma ExactBounded(s: Latch)
    requires s.layers.Valid() && Exact(s)
    ensures RefsBounded(s)
  {
    hide Holders;
  }

  /** The third pass ends with exact counts exactly when it began with them and meets no
      momentary code. */
  lemma RestExact(keymap: seq<bv16>, b: Latch, pressed: seq<bool>)
    requires b.layers.Valid() && |pressed| == |b.active| && RefsBounded(b)
    ensures Exact(Sweep(PressingRest(keymap), b, pressed, |pressed|)) <==>
            && Exact(b)
            && forall p, l :: 0 <= p < |pressed| && pressed[p] && 0 <= l < b.layers.count ==>
                 !Unapplied(b, keymap, p, l)
  {
    hide Holders, Unapplied, Sweep;
    var n := |pressed|;
    var r := Sweep(PressingRest(keymap), b, pressed, n);
    RestKeepsLayers(keymap, b, pressed, n);
    forall l | 0 <= l < b.layers.count
      ensures Holders(r.active, l) >= Holders(b.active, l)
      ensures Holders(r.active, l) == Holders(b.active, l) <==>
              forall p :: 0 <= p < n && pressed[p] ==> !Unapplied(b, keymap, p, l)
    {
      RestHolders(keymap, b, pressed, n, l);
    }
    if Exact(r) {
      forall l | 0 <= l < b.layers.count
        ensures b.layers.refs[l] == Holders(b.active, l)
        ensures forall p :: 0 <= p < n && pressed[p] ==> !Unapplied(b, keymap, p, l)
      {
        assert r.layers.refs[l] == Holders(r.active, l);
      }
      forall p, l | 0 <= p < n && pressed[p] && 0 <= l < b.layers.count ensures !Unapplied(b, keymap, p, l) {
        assert b.layers.refs[l] == Holders(b.active, l);
      }
    }
  }

  lemma {:induction false} NoneActive(v: LayerView, keymap: seq<bv16>, n: nat, pos: nat, top: nat)
    requires forall l :: 0 <= l < top ==> l !in v.mask
    ensures ResolveBelow(v, keymap, n, pos, top)
            == if v.defaultLayer < v.count then CodeAt(keymap, n, v.defaultLayer, pos) else 0
  {
    if top == 0 {
    } else {
      NoneActive(v, keymap, n, pos, top - 1);
    }
  }

  lemma Lookups(keymap: seq<bv16>, none: LayerView, one: LayerView)
    requires keymap == [0x0004, 0x5201, 0x5202, 0x0001, 0x0005, 0x0006]
    requires none.mask == {} && one.mask == {1} && none.count == one.count == 3
             && none.defaultLayer == one.defaultLayer == 0
    ensures Resolve(none, keymap, 2, 0) == 0x0004 && Resolve(none, keymap, 2, 1) == 0x5201
            && Resolve(one, keymap, 2, 0) == 0x5202
  {
    NoneActive(none, keymap, 2, 0, 32);
    NoneActive(none, keymap, 2, 1, 32);
    assert Decides(one, keymap, 2, 0, 1);
    ResolveMeaning(one, keymap, 2, 0, 32);
  }

  lemma CodeTable()
    ensures Classify(0x0004) == Basic && Classify(0x5202) == LayerKey && Classify(0x5201) == LayerKey
    ensures !IsLayerCode(0x0004) && IsLayerCode(0x5201) && ActionOf(0x5201) == MO && LayerOf(0x5201) == 1
  {
  }

  /** Two keys of one batch: the first is an ordinary key on layer 0 and MO(2) on layer 1,
      the second is MO(1). The first ends up latched as MO(2), and layer 2 stays off. */
  lemma LayerCanBeMissed()
    ensures var keymap := [0x0004, 0x5201, 0x5202, 0x0001, 0x0005, 0x0006];
            var start := Latch([0, 0], LayerView({}, seq(32, _ => 0), 3, 0));
            var r := Batch(start, [false, false], [true, true], keymap);
            r.active == [0x5202, 0x5201] && r.layers.mask == {1} && r.layers.refs[2] == 0
  {
    var keymap: seq<bv16> := [0x0004, 0x5201, 0x5202, 0x0001, 0x0005, 0x0006];
    var start := Latch([0, 0], LayerView({}, seq(32, _ => 0), 3, 0));
    var off, on := [false, false], [true, true];
    var one := LayerView({1}, start.layers.refs[1 := 1], 3, 0);
    assert AfterReleases(start, off) == start by {
      SweepSkips(Releasing, start, off, 0, 2);
    }
    Lookups(keymap, start.layers, one);
    CodeTable();
    assert Sweep(PressingLayers(keymap), start, on, 1) == start;
    assert Sweep(PressingLayers(keymap), start, on, 2) == Latch([0, 0x5201], one);
    assert Sweep(PressingRest(keymap), Latch([0, 0x5201], one), on, 1) == Latch([0x5202, 0x5201], one);
  }
}
