/** One batch of matrix changes: releases first, then layer keys, then all other keys,
    as sweeps over the flat positions row * columns + column. */
module Batches {
  import opened Keycodes
  import opened Layers
  import opened Matrix
  import opened Places

  /** The code latched at each position, and the layer state. */
  datatype Latch = Latch(active: seq<bv16>, layers: LayerView)

  datatype Pass = Releasing | PressingLayers(keymap: seq<bv16>) | PressingRest(keymap: seq<bv16>)

  /** What a pass does at one flagged position. */
  function StepAt(pass: Pass, s: Latch, p: nat): (r: Latch)
    requires s.layers.Valid() && p < |s.active|
    ensures r.layers.Valid() && |r.active| == |s.active| && r.layers.count == s.layers.count
  {
    match pass
    case Releasing =>
      if s.active[p] == 0 then s
      else Latch(s.active[p := 0], Release(s.layers, s.active[p]))
    case PressingLayers(keymap) =>
      var code := Resolve(s.layers, keymap, |s.active|, p);
      if IsLayerCode(code) then Latch(s.active[p := code], Press(s.layers, code))
      else if Classify(code) == Boot then s.(active := s.active[p := code])
      else s
    case PressingRest(keymap) =>
      if s.active[p] != 0 then s
      else
        var code := Resolve(s.layers, keymap, |s.active|, p);
        if Classify(code) == NoKey || Classify(code) == Transparent then s.(active := s.active[p := 0])
        else s.(active := s.active[p := code])
  }

  /** A pass over the flagged positions below `k`, in order. */
  function Sweep(pass: Pass, s: Latch, flags: seq<bool>, k: nat): (r: Latch)
    requires s.layers.Valid() && k <= |flags| == |s.active|
    ensures r.layers.Valid() && |r.active| == |s.active| && r.layers.count == s.layers.count
  {
    if k == 0 then s
    else
      var t := Sweep(pass, s, flags, k - 1);
      if flags[k - 1] then StepAt(pass, t, k - 1) else t
  }

  function Batch(s: Latch, released: seq<bool>, pressed: seq<bool>, keymap: seq<bv16>): (r: Latch)
    requires s.layers.Valid() && |released| == |pressed| == |s.active|
    ensures r.layers.Valid() && |r.active| == |s.active| && r.layers.count == s.layers.count
  {
    var n := |s.active|;
    var a := Sweep(Releasing, s, released, n);
    var b := Sweep(PressingLayers(keymap), a, pressed, n);
    Sweep(PressingRest(keymap), b, pressed, n)
  }

  /** A press pass latches a boot code at a position it reaches. */
  predicate BootsAt(pass: Pass, s: Latch, p: nat)
    requires p < |s.active|
  {
    match pass
    case Releasing => false
    case PressingLayers(keymap) => Classify(Resolve(s.layers, keymap, |s.active|, p)) == Boot
    case PressingRest(keymap) => s.active[p] == 0 && Classify(Resolve(s.layers, keymap, |s.active|, p)) == Boot
  }

  predicate SweepBoots(pass: Pass, s: Latch, flags: seq<bool>, k: nat)
    requires s.layers.Valid() && k <= |flags| == |s.active|
  {
    k > 0 && (SweepBoots(pass, s, flags, k - 1) || (flags[k - 1] && BootsAt(pass, Sweep(pass, s, flags, k - 1), k - 1)))
  }

  predicate BatchBoots(s: Latch, released: seq<bool>, pressed: seq<bool>, keymap: seq<bv16>)
    requires s.layers.Valid() && |released| == |pressed| == |s.active|
  {
    var n := |s.active|;
    var a := Sweep(Releasing, s, released, n);
    var b := Sweep(PressingLayers(keymap), a, pressed, n);
    SweepBoots(PressingLayers(keymap), a, pressed, n) || SweepBoots(PressingRest(keymap), b, pressed, n)
  }

  /** A stretch without flags changes nothing. */
  lemma {:induction false} SweepSkips(pass: Pass, s: Latch, flags: seq<bool>, from: nat, to: nat)
    requires s.layers.Valid() && from <= to <= |flags| == |s.active|
    requires forall p :: from <= p < to ==> !flags[p]
    ensures Sweep(pass, s, flags, to) == Sweep(pass, s, flags, from)
    ensures SweepBoots(pass, s, flags, to) == SweepBoots(pass, s, flags, from)
  {
    if from == to {
    } else {
      SweepSkips(pass, s, flags, from, to - 1);
    }
  }

  // ----- rows and flat positions

  /** The flat position of a key is Place(row, columns, column). */
  function Flat(rows: seq<Row>, columns: nat): (f: seq<bool>)
    requires columns > 0
    ensures |f| == Place(|rows|, columns, 0)
  {
    seq(Place(|rows|, columns, 0), p requires 0 <= p < Place(|rows|, columns, 0) =>
      QuotientBelow(p, |rows|, columns); p % columns in rows[p / columns])
  }

  /** A flat flag is the bit of its row word. */
  lemma FlatAt(rows: seq<Row>, columns: nat, row: nat, column: nat)
    requires row < |rows| && column < columns
    ensures Place(row, columns, column) < |Flat(rows, columns)|
    ensures Flat(rows, columns)[Place(row, columns, column)] == (column in rows[row])
  {
    PlaceBelow(row, |rows|, columns, column);
    PlaceDivMod(row, columns, column);
  }

  /** A row without bits has no flags. */
  lemma RowSkips(rows: seq<Row>, columns: nat, row: nat)
    requires row < |rows| && columns > 0 && rows[row] == {}
    ensures Place(row + 1, columns, 0) <= |Flat(rows, columns)|
    ensures forall p :: Place(row, columns, 0) <= p < Place(row + 1, columns, 0) ==> !Flat(rows, columns)[p]
  {
    PlaceBelow(row, |rows|, columns, 0);
    forall p | Place(row, columns, 0) <= p < Place(row + 1, columns, 0)
      ensures !Flat(rows, columns)[p]
    {
      PlaceSteps(row, columns, 0);
      FlatAt(rows, columns, row, p - Place(row, columns, 0));
    }
  }

  function ReleasedRows(changed: seq<Row>, stable: seq<Row>): (r: seq<Row>)
    requires |changed| == |stable|
    ensures |r| == |changed|
  {
    seq(|changed|, i requires 0 <= i < |changed| => changed[i] - stable[i])
  }

  function PressedRows(changed: seq<Row>, stable: seq<Row>): (r: seq<Row>)
    requires |changed| == |stable|
    ensures |r| == |changed|
  {
    seq(|changed|, i requires 0 <= i < |changed| => changed[i] * stable[i])
  }
}
