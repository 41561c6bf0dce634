/** Lock-step runs of matrix and keyboard: what no sequence of scans, keymap edits and
    host events can break. */
module KeyboardRuns {
  import opened Bytes
  import opened Keycodes
  import opened Layers
  import opened Matrix
  import opened Reports
  import opened Batches
  import opened BatchEffects
  import opened LayerCounts
  import opened LayerToggles
  import opened Places
  import opened KeyboardEngine

  datatype Setup = Setup(rows: nat, columns: nat, layers: nat, debounceMs: nat) {
    function Positions(): nat { Place(rows, columns, 0) }

    predicate Valid() { rows <= 8 && 0 < columns <= 32 && layers <= 32 && Positions() <= 255 }
  }

  datatype Board = Board(matrix: MatrixView, keys: KeyboardView)

  /** What one turn of the main loop meets: the switches that are closed, the clock, the
      keymap as it stands now, and the host. */
  datatype Turn = Turn(closed: set<(nat, nat)>, ms: uint32, keymap: seq<bv16>, host: Host)

  predicate Sized(g: Setup, b: Board) {
    && b.matrix.Sized(g.rows) && b.keys.latch.layers.Valid()
    && b.keys.latch.layers.count == g.layers && |b.keys.latch.active| == g.Positions()
  }

  function Start(g: Setup): (b: Board)
    requires g.Valid()
    ensures Sized(g, b)
  {
    Board(Initial(g.rows),
          KeyboardView(Latch(seq(g.Positions(), _ => 0), LayerView({}, seq(32, _ => 0), g.layers, 0)),
                       ReportView(EMPTY, false, EMPTY, []), WakeView(false, false, 0), LedView(0, []), 0))
  }

  /** A scan, then the keyboard task, which reads and clears the reported changes. */
  function Next(g: Setup, b: Board, t: Turn): (r: Board)
    requires g.Valid() && Sized(g, b)
    ensures Sized(g, r)
  {
    var m := Scanned(b.matrix, RawOf(t.closed, g.rows, g.columns), t.ms, g.debounceMs);
    Board(m.(changed := NoRows(g.rows)), Tasked(b.keys, m.changed, m.stable, g.columns, t.keymap, t.host))
  }

  /** The board after the first `i` turns. */
  function After(g: Setup, turns: seq<Turn>, i: nat): (b: Board)
    requires g.Valid() && i <= |turns|
    ensures Sized(g, b)
  {
    if i == 0 then Start(g) else Next(g, After(g, turns, i - 1), turns[i - 1])
  }

  // ----- the objects take these turns

  ghost function SetupOf(k: Keyboard): Setup
    reads k, k.matrix, k.layerState
  {
    Setup(k.rows, k.columns, k.layerState.layerCount, k.matrix.debounceMs)
  }

  /** The arrays of the matrix are not those of the keyboard. */
  ghost predicate Apart(k: Keyboard)
    reads k
  {
    var m, codes, counts := k.matrix, k.activeCodes as object, k.layerState.refCounts as object;
    && codes != m.rawRows && codes != m.prevRaw && codes != m.candidateRows && codes != m.stableRows
       && codes != m.changedRows
    && counts != m.rawRows && counts != m.prevRaw && counts != m.candidateRows && counts != m.stableRows
       && counts != m.changedRows
  }

  ghost predicate Ready(k: Keyboard)
    reads k, k.matrix, k.layerState, k.matrix.io
  {
    && k.Valid() && Apart(k) && SetupOf(k).Valid()
    && k.matrix.columns == k.columns && k.matrix.io.driven == {}
  }

  ghost function BoardOf(k: Keyboard): (b: Board)
    requires Ready(k)
    reads k, k.matrix, k.layerState, k.matrix.io, k.matrix.prevRaw, k.matrix.candidateRows, k.matrix.stableRows,
          k.matrix.changedRows, k.layerState.refCounts, k.activeCodes, k.hid, k.callbacks
    ensures Sized(SetupOf(k), b)
  {
    Board(k.matrix.View(), k.View())
  }

  /** One turn of the sketches' main loop: matrix task, then keyboard task. */
  method RunTurn(k: Keyboard, ms: uint32, keymap: seq<bv16>)
    requires Ready(k) && |keymap| == Place(k.layerState.layerCount, Place(k.rows, k.columns, 0), 0)
    modifies k, k.hid`handed, k.hid`leds, k.hid`wakes, k.callbacks, k.activeCodes, k.layerState, k.layerState.refCounts,
             k.matrix, k.matrix.io`driven,
             k.matrix.rawRows, k.matrix.prevRaw, k.matrix.candidateRows, k.matrix.stableRows, k.matrix.changedRows
    ensures Ready(k) && SetupOf(k) == old(SetupOf(k))
    ensures BoardOf(k) == Next(old(SetupOf(k)), old(BoardOf(k)),
            Turn(k.matrix.io.closed, ms, keymap, old(k.CurrentHost())))
  {
    hide Place, Scanned, Tasked, RawOf;
    k.matrix.Task(ms);
    ghost var between := k.matrix.View();
    k.Task(keymap);
    assert k.matrix.View() == between.(changed := NoRows(k.rows));
  }

  // ----- one batch between two stable matrices

  /** Changed bits that are off now were on, and those that are on now were off. */
  lemma ChangesSplit(s0: seq<Row>, s1: seq<Row>, columns: nat)
    requires |s0| == |s1| && columns > 0
    ensures var released, pressed := Released(XorRows(s0, s1), s1, columns), Pressed(XorRows(s0, s1), s1, columns);
            && |released| == |pressed| == |Flat(s0, columns)| == |Flat(s1, columns)|
            && (forall p :: 0 <= p < |released| ==> released[p] == (Flat(s0, columns)[p] && !Flat(s1, columns)[p]))
            && (forall p :: 0 <= p < |pressed| ==> pressed[p] == (!Flat(s0, columns)[p] && Flat(s1, columns)[p]))
  {
    hide Flat, Place;
    var changed := XorRows(s0, s1);
    FlatMeans(s0, columns);
    FlatMeans(s1, columns);
    FlatMeans(ReleasedRows(changed, s1), columns);
    FlatMeans(PressedRows(changed, s1), columns);
    forall r, c | 0 <= r < |s0|
      ensures c in ReleasedRows(changed, s1)[r] <==> c in s0[r] && c !in s1[r]
      ensures c in PressedRows(changed, s1)[r] <==> c !in s0[r] && c in s1[r]
    {
      assert changed[r] == Xor(s0[r], s1[r]);
    }
  }

  lemma FlatMeans(rows: seq<Row>, columns: nat)
    requires columns > 0
    ensures forall p {:trigger Flat(rows, columns)[p]} :: 0 <= p < |Flat(rows, columns)| ==>
              0 <= p / columns < |rows| && Flat(rows, columns)[p] == (p % columns in rows[p / columns])
  {
    forall p | 0 <= p < |Flat(rows, columns)| ensures 0 <= p / columns < |rows| {
      QuotientBelow(p, |rows|, columns);
    }
  }

  /** Codes are latched only at positions that are stably pressed. */
  predicate Latched(active: seq<bv16>, held: seq<bool>)
    requires |active| == |held|
  {
    forall p :: 0 <= p < |active| && active[p] != 0 ==> held[p]
  }

  lemma BatchKeeps(s: Latch, s0: seq<Row>, s1: seq<Row>, columns: nat, keymap: seq<bv16>)
    requires columns > 0 && |s0| == |s1| && s.layers.Valid() && |s.active| == Place(|s0|, columns, 0) <= 255
    requires RefsBounded(s) && Latched(s.active, Flat(s0, columns))
    ensures var changed := XorRows(s0, s1);
            var r := Batch(s, Released(changed, s1, columns), Pressed(changed, s1, columns), keymap);
            && RefsBounded(r) && (Unused(s.layers) ==> Unused(r.layers))
            && Latched(r.active, Flat(s1, columns))
            && Disjoint(Released(changed, s1, columns), Pressed(changed, s1, columns))
            && FreeAt(Pressed(changed, s1, columns), s.active)
            && (forall p :: 0 <= p < |s.active| && Flat(s0, columns)[p] && Flat(s1, columns)[p] ==>
                  r.active[p] == s.active[p])
            && (MaskCounts(s.layers) && AllPlain(s.active) && AllPlain(keymap) ==>
                 MaskCounts(r.layers) && AllPlain(r.active))
  {
    hide Flat, Released, Pressed, XorRows, Place, RefsBounded, Unused, MaskCounts, AllPlain, Sweep, Resolve, ActsEarly,
         Kept;
    var changed, n := XorRows(s0, s1), |s.active|;
    var released, pressed := Released(changed, s1, columns), Pressed(changed, s1, columns);
    ChangesSplit(s0, s1, columns);
    assert Disjoint(released, pressed) && FreeAt(pressed, s.active);
    forall p | 0 <= p < n ensures var r := Batch(s, released, pressed, keymap);
      (released[p] ==> r.active[p] == 0) && (!released[p] && !pressed[p] ==> r.active[p] == s.active[p])
    {
      BatchLatches(s, released, pressed, keymap, p);
    }
    var a, b := AfterReleases(s, released), Reaching(s, released, pressed, keymap, n);
    SweepLocal(Releasing, s, released, n);
    SweepBounded(Releasing, s, released, n);
    SweepBounded(PressingLayers(keymap), a, pressed, n);
    SweepBounded(PressingRest(keymap), b, pressed, n);
    if Unused(s.layers) {
      SweepUnused(Releasing, s, released, n);
      SweepUnused(PressingLayers(keymap), a, pressed, n);
      SweepUnused(PressingRest(keymap), b, pressed, n);
    }
    if MaskCounts(s.layers) && AllPlain(s.active) && AllPlain(keymap) {
      SweepMask(Releasing, s, released, n);
      SweepMask(PressingLayers(keymap), a, pressed, n);
      SweepMask(PressingRest(keymap), b, pressed, n);
    }
  }

  // ----- the invariant of all runs

  /** The report last handed over is the one due, and while the host is awake it says what
      is latched. */
  predicate Reporting(k: KeyboardView) {
    && LastHanded(k.reports.handed) == Due(k.reports)
    && (k.wake.wasSuspended || LastHanded(k.reports.handed) == ReportOf(k.latch.active))
  }

  predicate Invariant(g: Setup, b: Board)
    requires g.Valid() && Sized(g, b)
  {
    && b.matrix.changed == NoRows(g.rows)
    && Latched(b.keys.latch.active, Flat(b.matrix.stable, g.columns))
    && RefsBounded(b.keys.latch) && Unused(b.keys.latch.layers)
    && Reporting(b.keys)
  }

  /** Everything but the reports, and what a hold keeps. */
  lemma NextLatches(g: Setup, b: Board, t: Turn)
    requires g.Valid() && Sized(g, b) && Invariant(g, b)
    ensures var r := Next(g, b, t);
            && r.matrix.changed == NoRows(g.rows)
            && Latched(r.keys.latch.active, Flat(r.matrix.stable, g.columns))
            && RefsBounded(r.keys.latch) && Unused(r.keys.latch.layers)
            && (forall p | 0 <= p < g.Positions() && Flat(b.matrix.stable, g.columns)[p]
               && Flat(r.matrix.stable, g.columns)[p] ::
                  r.keys.latch.active[p] == b.keys.latch.active[p])
            && (MaskCounts(b.keys.latch.layers) && AllPlain(b.keys.latch.active) && AllPlain(t.keymap) ==>
                  MaskCounts(r.keys.latch.layers) && AllPlain(r.keys.latch.active))
  {
    hide Flat, Released, Pressed, Batch, BatchBoots, Scanned, Place, RefsBounded, Unused, MaskCounts, AllPlain, Latched,
         ReportOf, Lit, Woken, Retried, Reported;
    var raw := RawOf(t.closed, g.rows, g.columns);
    var m := Scanned(b.matrix, raw, t.ms, g.debounceMs);
    ScanReportsDifference(b.matrix, raw, t.ms, g.debounceMs);
    if m.changed == NoRows(g.rows) {
      NoDifference(b.matrix.stable, m.stable);
    } else {
      BatchKeeps(b.keys.latch, b.matrix.stable, m.stable, g.columns, t.keymap);
    }
  }

  lemma NoDifference(s0: seq<Row>, s1: seq<Row>)
    requires |s0| == |s1| && XorRows(s0, s1) == NoRows(|s0|)
    ensures s0 == s1
  {
    forall i | 0 <= i < |s0| ensures s0[i] == s1[i] {
      assert Xor(s0[i], s1[i]) == XorRows(s0, s1)[i] == {};
    }
  }

  lemma NextReports(g: Setup, b: Board, t: Turn)
    requires g.Valid() && Sized(g, b) && Reporting(b.keys)
    ensures Reporting(Next(g, b, t).keys)
  {
    hide Flat, Released, Pressed, Batch, BatchBoots, Scanned, Place, ReportOf, Lit;
  }

  lemma {:induction false} RunInvariant(g: Setup, turns: seq<Turn>, i: nat)
    requires g.Valid() && i <= |turns|
    ensures Invariant(g, After(g, turns, i))
  {
    hide Flat, Next, RefsBounded, Unused, Latched, Reporting;
    if i == 0 {
      StartInvariant(g);
    } else {
      RunInvariant(g, turns, i - 1);
      NextLatches(g, After(g, turns, i - 1), turns[i - 1]);
      NextReports(g, After(g, turns, i - 1), turns[i - 1]);
    }
  }

  lemma StartInvariant(g: Setup)
    requires g.Valid()
    ensures Invariant(g, Start(g)) && MaskCounts(Start(g).keys.latch.layers) && AllPlain(Start(g).keys.latch.active)
  {
    hide Flat, Place;
    NothingHeld(Start(g).keys.latch.active);
  }

  // ----- the press-time latch

  predicate HeldAt(g: Setup, turns: seq<Turn>, i: nat, p: nat)
    requires g.Valid() && i <= |turns| && p < g.Positions()
  {
    Flat(After(g, turns, i).matrix.stable, g.columns)[p]
  }

  function CodeHeld(g: Setup, turns: seq<Turn>, i: nat, p: nat): bv16
    requires g.Valid() && i <= |turns| && p < g.Positions()
  {
    After(g, turns, i).keys.latch.active[p]
  }

  /** A position has a code only while it is stably pressed, and the code stays the same
      for the whole hold, whatever keymaps, clocks, other keys and host events come. */
  lemma {:induction false} PressTimeLatch(g: Setup, turns: seq<Turn>, i: nat, j: nat, p: nat)
    requires g.Valid() && i <= j <= |turns| && p < g.Positions()
    ensures CodeHeld(g, turns, j, p) != 0 ==> HeldAt(g, turns, j, p)
    ensures (forall k :: i <= k <= j ==> HeldAt(g, turns, k, p)) ==>
              CodeHeld(g, turns, j, p) == CodeHeld(g, turns, i, p)
  {
    hide Flat, Next, After, Place, RefsBounded, Reporting;
    RunInvariant(g, turns, j);
    if i == j {
    } else {
      PressTimeLatch(g, turns, i, j - 1, p);
      RunInvariant(g, turns, j - 1);
      NextLatches(g, After(g, turns, j - 1), turns[j - 1]);
      AfterStep(g, turns, j);
      if forall k :: i <= k <= j ==> HeldAt(g, turns, k, p) {
        assert HeldAt(g, turns, j - 1, p) && HeldAt(g, turns, j, p);
      }
    }
  }

  lemma AfterStep(g: Setup, turns: seq<Turn>, i: nat)
    requires g.Valid() && 0 < i <= |turns|
    ensures After(g, turns, i) == Next(g, After(g, turns, i - 1), turns[i - 1])
  {
  }

  // ----- no stuck layer

  lemma {:induction false} NothingLatched(active: seq<bv16>, l: nat)
    requires forall p :: 0 <= p < |active| ==> active[p] == 0
    ensures Holders(active, l) == 0
  {
    hide IsMomentary;
    ZeroIsNoLayer(l);
    if active == [] {
    } else {
      NothingLatched(active[..|active| - 1], l);
    }
  }

  /** What a turn's scan publishes. */
  function ScanOf(g: Setup, b: Board, t: Turn): (m: MatrixView)
    requires g.Valid() && Sized(g, b)
    ensures m.Sized(g.rows)
  {
    Scanned(b.matrix, RawOf(t.closed, g.rows, g.columns), t.ms, g.debounceMs)
  }

  function ReleasedIn(g: Setup, b: Board, t: Turn): (f: seq<bool>)
    requires g.Valid() && Sized(g, b)
    ensures |f| == g.Positions()
  {
    Released(ScanOf(g, b, t).changed, ScanOf(g, b, t).stable, g.columns)
  }

  function PressedIn(g: Setup, b: Board, t: Turn): (f: seq<bool>)
    requires g.Valid() && Sized(g, b)
    ensures |f| == g.Positions()
  {
    Pressed(ScanOf(g, b, t).changed, ScanOf(g, b, t).stable, g.columns)
  }

  /** The state in which a turn's layer pass reaches a position. */
  function LayersAt(g: Setup, b: Board, t: Turn, p: nat): (s: Latch)
    requires g.Valid() && Sized(g, b) && p <= g.Positions()
    ensures s.layers.Valid() && |s.active| == g.Positions() && s.layers.count == g.layers
  {
    Reaching(b.keys.latch, ReleasedIn(g, b, t), PressedIn(g, b, t), t.keymap, p)
  }

  /** A turn presses what was free, and nothing it releases. */
  lemma TurnFlags(g: Setup, b: Board, t: Turn)
    requires g.Valid() && Sized(g, b) && Invariant(g, b)
    ensures Disjoint(ReleasedIn(g, b, t), PressedIn(g, b, t)) && FreeAt(PressedIn(g, b, t), b.keys.latch.active)
    ensures Next(g, b, t).keys.latch == Batch(b.keys.latch, ReleasedIn(g, b, t), PressedIn(g, b, t), t.keymap)
  {
    hide Flat, Released, Pressed, Batch, BatchBoots, Scanned, Place, RefsBounded, Latched, ReportOf, Lit, Woken,
         Retried, Reported;
    var m := ScanOf(g, b, t);
    ScanReportsDifference(b.matrix, RawOf(t.closed, g.rows, g.columns), t.ms, g.debounceMs);
    BatchKeeps(b.keys.latch, b.matrix.stable, m.stable, g.columns, t.keymap);
    if m.changed == NoRows(g.rows) {
      NoDifference(b.matrix.stable, m.stable);
      NothingFlagged(b.matrix.stable, g.columns);
      EmptyBatch(b.keys.latch, ReleasedIn(g, b, t), PressedIn(g, b, t), t.keymap);
    }
  }

  lemma NothingFlagged(s0: seq<Row>, columns: nat)
    requires columns > 0
    ensures forall p :: 0 <= p < Place(|s0|, columns, 0) ==>
              !Released(XorRows(s0, s0), s0, columns)[p] && !Pressed(XorRows(s0, s0), s0, columns)[p]
  {
    hide Flat, Released, Pressed, Place;
    ChangesSplit(s0, s0, columns);
  }

  lemma EmptyBatch(s: Latch, released: seq<bool>, pressed: seq<bool>, keymap: seq<bv16>)
    requires s.layers.Valid() && |released| == |pressed| == |s.active|
    requires forall p :: 0 <= p < |pressed| ==> !released[p] && !pressed[p]
    ensures Batch(s, released, pressed, keymap) == s && !BatchBoots(s, released, pressed, keymap)
  {
    SweepSkips(Releasing, s, released, 0, |released|);
    SweepSkips(PressingLayers(keymap), s, pressed, 0, |pressed|);
    SweepSkips(PressingRest(keymap), s, pressed, 0, |pressed|);
  }

  /** No layer is ever counted more often than its momentary key is held. And no count ever
      wraps: whenever the layer pass of any turn of any run reaches a momentary key of an
      existing layer, its eight-bit count has room and goes up by exactly one. */
  lemma CountsNeverWrap(g: Setup, turns: seq<Turn>, i: nat, p: nat, l: nat)
    requires g.Valid() && i <= |turns| && p < g.Positions() && l < 32
    ensures var s := After(g, turns, i).keys.latch;
            s.layers.refs[l] <= Holders(s.active, l) <= 255
    ensures i < |turns| ==>
              var b, t := After(g, turns, i), turns[i];
              PressedIn(g, b, t)[p] && l < g.layers
                  && IsMomentary(Resolve(LayersAt(g, b, t, p).layers, t.keymap, g.Positions(), p), l) ==>
                LayersAt(g, b, t, p).layers.refs[l] < 255
                && LayersAt(g, b, t, p + 1).layers.refs[l] == LayersAt(g, b, t, p).layers.refs[l] + 1
  {
    hide After, Holders, Place, PressedIn, ReleasedIn, RefsBounded, Sweep, IsMomentary, Resolve, Next;
    RunInvariant(g, turns, i);
    UnusedBounded(After(g, turns, i).keys.latch, l);
    if i < |turns| {
      var b, t := After(g, turns, i), turns[i];
      TurnFlags(g, b, t);
      var a := AfterReleases(b.keys.latch, ReleasedIn(g, b, t));
      SweepBounded(Releasing, b.keys.latch, ReleasedIn(g, b, t), g.Positions());
      SweepLocal(Releasing, b.keys.latch, ReleasedIn(g, b, t), g.Positions());
      if PressedIn(g, b, t)[p] && l < g.layers
          && IsMomentary(Resolve(LayersAt(g, b, t, p).layers, t.keymap, g.Positions(), p), l) {
        SweepNoWrap(t.keymap, a, PressedIn(g, b, t), p, l);
      }
    }
  }

  lemma UnusedBounded(s: Latch, l: nat)
    requires s.layers.Valid() && RefsBounded(s) && Unused(s.layers) && l < 32
    ensures s.layers.refs[l] <= Holders(s.active, l)
  {
    hide Holders;
  }

  // ----- exact counts over runs

  lemma NextExact(g: Setup, b: Board, t: Turn)
    requires g.Valid() && Sized(g, b) && Invariant(g, b) && Exact(b.keys.latch)
    ensures Exact(Next(g, b, t).keys.latch) <==>
            !Miscounts(b.keys.latch, ReleasedIn(g, b, t), PressedIn(g, b, t), t.keymap)
  {
    hide Next, Exact, Place, PressedIn, ReleasedIn, RefsBounded, Miscounts, Batch;
    TurnFlags(g, b, t);
    CountsStayExact(b.keys.latch, ReleasedIn(g, b, t), PressedIn(g, b, t), t.keymap);
  }

  predicate ExactAt(g: Setup, turns: seq<Turn>, i: nat)
    requires g.Valid() && i <= |turns|
  {
    Exact(After(g, turns, i).keys.latch)
  }

  /** A switch-to key wipes a held layer in this turn, or a momentary key goes uncounted. */
  predicate MiscountsAt(g: Setup, turns: seq<Turn>, i: nat)
    requires g.Valid() && i < |turns|
  {
    var b := After(g, turns, i);
    Miscounts(b.keys.latch, ReleasedIn(g, b, turns[i]), PressedIn(g, b, turns[i]), turns[i].keymap)
  }

  /** Over all runs: counts were exact after every turn so far if and only if no batch so far
      wiped a held layer or met an unapplied momentary code. */
  lemma {:induction false} CountsExactRun(g: Setup, turns: seq<Turn>, i: nat)
    requires g.Valid() && i <= |turns|
    ensures (forall j :: 0 <= j <= i ==> ExactAt(g, turns, j)) <==>
            (forall j :: 0 <= j < i ==> !MiscountsAt(g, turns, j))
  {
    hide After, Next, Exact, Miscounts, Invariant;
    if i == 0 {
      StartExact(g, turns);
    } else {
      CountsExactRun(g, turns, i - 1);
      RunInvariant(g, turns, i - 1);
      AfterStep(g, turns, i);
      if ExactAt(g, turns, i - 1) {
        NextExact(g, After(g, turns, i - 1), turns[i - 1]);
        assert ExactAt(g, turns, i) <==> !MiscountsAt(g, turns, i - 1);
      }
    }
  }

  lemma StartExact(g: Setup, turns: seq<Turn>)
    requires g.Valid()
    ensures ExactAt(g, turns, 0)
  {
    hide Holders, Place;
    forall l | 0 <= l < g.layers ensures Holders(Start(g).keys.latch.active, l) == 0 {
      NothingLatched(Start(g).keys.latch.active, l);
    }
  }

  lemma {:induction false} PlainRun(g: Setup, turns: seq<Turn>, i: nat)
    requires g.Valid() && i <= |turns| && forall k :: 0 <= k < |turns| ==> AllPlain(turns[k].keymap)
    ensures MaskCounts(After(g, turns, i).keys.latch.layers) && AllPlain(After(g, turns, i).keys.latch.active)
  {
    hide Flat, Next, MaskCounts, AllPlain;
    if i == 0 {
      StartInvariant(g);
    } else {
      PlainRun(g, turns, i - 1);
      RunInvariant(g, turns, i - 1);
      NextLatches(g, After(g, turns, i - 1), turns[i - 1]);
    }
  }

  /** When only momentary and default-layer codes occur, an active layer has its momentary
      key held; with every key released no layer is left on. */
  lemma NoStuckLayer(g: Setup, turns: seq<Turn>, i: nat)
    requires g.Valid() && i <= |turns| && forall k :: 0 <= k < |turns| ==> AllPlain(turns[k].keymap)
    ensures var s := After(g, turns, i).keys.latch;
            && (forall l :: l in s.layers.mask ==> 0 < Holders(s.active, l))
            && ((forall p :: 0 <= p < g.Positions() ==> !HeldAt(g, turns, i, p)) ==> s.layers.mask == {})
  {
    hide After, Place, Holders, Flat, AllPlain;
    RunInvariant(g, turns, i);
    PlainRun(g, turns, i);
    var s := After(g, turns, i).keys.latch;
    if forall p :: 0 <= p < g.Positions() ==> !HeldAt(g, turns, i, p) {
      forall p | 0 <= p < g.Positions() ensures s.active[p] == 0 {
        assert !HeldAt(g, turns, i, p);
      }
      forall l | 0 <= l < 32 ensures l !in s.layers.mask {
        NothingLatched(s.active, l);
      }
      assert forall l :: l in s.layers.mask ==> 0 <= l < 32;
    }
  }

  /** How often TG(l) was pressed in the first `i` turns. */
  function TogglePresses(g: Setup, turns: seq<Turn>, i: nat, l: nat): (n: nat)
    requires g.Valid() && i <= |turns|
  {
    if i == 0 then 0
    else
      var b, t := After(g, turns, i - 1), turns[i - 1];
      TogglePresses(g, turns, i - 1, l)
      + Toggles(t.keymap, AfterReleases(b.keys.latch, ReleasedIn(g, b, t)), PressedIn(g, b, t), g.Positions(), l)
  }

  /** When only toggle codes occur, a layer is on after an odd number of presses of its key
      and off after an even number, whatever is held, released or suspended meanwhile. */
  lemma {:induction false} ToggleParity(g: Setup, turns: seq<Turn>, i: nat, l: nat)
    requires g.Valid() && i <= |turns| && l < g.layers
    requires forall k :: 0 <= k < |turns| ==> AllToggling(turns[k].keymap)
    ensures l in After(g, turns, i).keys.latch.layers.mask <==> TogglePresses(g, turns, i, l) % 2 == 1
    ensures AllToggling(After(g, turns, i).keys.latch.active)
  {
    hide After, Next, AllToggling, Toggles, Place, PressedIn, ReleasedIn;
    if i == 0 {
      NoToggles(g, turns);
    } else {
      var b, t := After(g, turns, i - 1), turns[i - 1];
      ToggleParity(g, turns, i - 1, l);
      RunInvariant(g, turns, i - 1);
      AfterStep(g, turns, i);
      TurnFlags(g, b, t);
      BatchToggles(b.keys.latch, ReleasedIn(g, b, t), PressedIn(g, b, t), t.keymap, l);
    }
  }

  lemma NoToggles(g: Setup, turns: seq<Turn>)
    requires g.Valid()
    ensures After(g, turns, 0).keys.latch.layers.mask == {}
    ensures AllToggling(After(g, turns, 0).keys.latch.active)
  {
    hide Place;
    ZeroToggling(0);
  }

  // ----- report agreement

  /** Unless the host was suspended at the last task, the report last handed over says
      exactly what is latched, and it is the pending report, or the last accepted one when
      none is pending; with every key released it is empty. */
  lemma ReportAgreement(g: Setup, turns: seq<Turn>, i: nat)
    requires g.Valid() && i <= |turns|
    ensures var k := After(g, turns, i).keys;
            && LastHanded(k.reports.handed)
               == (if k.reports.reportPending then k.reports.pending else k.reports.lastAccepted)
            && (!k.wake.wasSuspended ==> LastHanded(k.reports.handed) == ReportOf(k.latch.active))
            && (!k.wake.wasSuspended && (forall p :: 0 <= p < g.Positions() ==> !HeldAt(g, turns, i, p)) ==>
                 LastHanded(k.reports.handed) == EMPTY)
    ensures i > 0 ==> After(g, turns, i).keys.wake.wasSuspended == turns[i - 1].host.suspended
  {
    hide Flat, Place, ReportOf, Batch, Scanned;
    RunInvariant(g, turns, i);
    var k := After(g, turns, i).keys;
    if forall p :: 0 <= p < g.Positions() ==> !HeldAt(g, turns, i, p) {
      forall p | 0 <= p < g.Positions() ensures k.latch.active[p] == 0 {
        assert !HeldAt(g, turns, i, p);
      }
      NothingHeld(k.latch.active);
    }
  }

  /** What one turn does with reports. A pending report stops pending only when the host
      completed it, and then it is the last accepted one; one that was not completed is handed
      over again; a report that differs from what the host is due becomes pending and is
      handed over; and nothing else is. */
  lemma ReportTurn(g: Setup, turns: seq<Turn>, i: nat)
    requires g.Valid() && i < |turns|
    ensures var k, r := After(g, turns, i).keys.reports, After(g, turns, i + 1).keys.reports;
            var completes, report := turns[i].host.completes, ReportOf(After(g, turns, i + 1).keys.latch.active);
            var differs := !turns[i].host.suspended && report != Due(k);
            && r.handed
               == k.handed + (if k.reportPending && !completes then [k.pending] else [])
                           + (if differs then [report] else [])
            && r.lastAccepted == (if k.reportPending && completes then k.pending else k.lastAccepted)
            && r.reportPending == (differs || (k.reportPending && !completes))
            && (r.reportPending ==> r.pending == if differs then report else k.pending)
            && Due(k) == (if k.reportPending then k.pending else k.lastAccepted)
  {
    hide After, Next, Flat, Place, ReportOf;
    RunInvariant(g, turns, i);
    RunInvariant(g, turns, i + 1);
    AfterStep(g, turns, i + 1);
    NextReport(g, After(g, turns, i), turns[i]);
  }

  lemma NextReport(g: Setup, b: Board, t: Turn)
    requires g.Valid() && Sized(g, b) && Reporting(b.keys)
    ensures var k, r := b.keys.reports, Next(g, b, t).keys.reports;
            var completes, report := t.host.completes, ReportOf(Next(g, b, t).keys.latch.active);
            var differs := !t.host.suspended && report != Due(k);
            && r.handed
               == k.handed + (if k.reportPending && !completes then [k.pending] else [])
                           + (if differs then [report] else [])
            && r.lastAccepted == (if k.reportPending && completes then k.pending else k.lastAccepted)
            && r.reportPending == (differs || (k.reportPending && !completes))
            && (r.reportPending ==> r.pending == if differs then report else k.pending)
            && Due(k) == (if k.reportPending then k.pending else k.lastAccepted)
  {
    hide Flat, Released, Pressed, Batch, BatchBoots, Scanned, Place, ReportOf, Lit, Woken;
  }

  /** A report that the host does not complete is handed over again in every turn, and stays
      the one to be accepted or replaced; so no release is lost on a busy endpoint. */
  lemma {:induction false} ResentUntilCompleted(g: Setup, turns: seq<Turn>, i: nat, j: nat)
    requires g.Valid() && i <= j <= |turns| && After(g, turns, i).keys.reports.reportPending
    requires forall k :: i <= k < j ==> !turns[k].host.completes
    ensures var before, r := After(g, turns, i).keys.reports, After(g, turns, j).keys.reports;
            && r.reportPending && r.lastAccepted == before.lastAccepted
            && before.handed <= r.handed && |r.handed| >= |before.handed| + (j - i)
  {
    hide After, ReportOf;
    if i == j {
    } else {
      ResentUntilCompleted(g, turns, i, j - 1);
      ReportTurn(g, turns, j - 1);
    }
  }

  // ----- what the application and the host are told

  /** A wake-up call is made exactly when one is noted for the first time. */
  lemma NextWakes(g: Setup, b: Board, t: Turn)
    requires g.Valid() && Sized(g, b)
    ensures var w, w' := b.keys.wake, Next(g, b, t).keys.wake;
            && w'.wakes == w.wakes + (if !w.wakeRequested && w'.wakeRequested then 1 else 0)
            && (t.host.suspended && w.wakeRequested ==> w'.wakeRequested)
            && (w'.wakeRequested && !w.wakeRequested ==>
                  t.host.suspended && t.host.wakeAllowed && AnyHeld(Next(g, b, t).keys.latch.active))
  {
    hide Flat, Released, Pressed, Batch, BatchBoots, Scanned, Place, ReportOf, Lit, Retried, Reported;
  }

  /** Exactly when the host is woken: suspended and allowing it, not woken since it last was
      awake, when the stable keys change and any key is held after that. */
  lemma WakeTurn(g: Setup, turns: seq<Turn>, i: nat)
    requires g.Valid() && i < |turns|
    ensures var b, b', h := After(g, turns, i), After(g, turns, i + 1), turns[i].host;
            var w, w', moved := b.keys.wake, b'.keys.wake, b'.matrix.stable != b.matrix.stable;
            var due := h.suspended && h.wakeAllowed && !w.wakeRequested && moved
                       && exists p :: 0 <= p < g.Positions() && b'.keys.latch.active[p] != 0;
            && w'.wakes == w.wakes + (if due then 1 else 0) && w'.wasSuspended == h.suspended
            && w'.wakeRequested == (if !h.suspended && (moved || w.wasSuspended) then false else w.wakeRequested || due)
  {
    hide After, Next, Place;
    RunInvariant(g, turns, i);
    AfterStep(g, turns, i + 1);
    NextWake(g, After(g, turns, i), turns[i]);
  }

  lemma NextWake(g: Setup, b: Board, t: Turn)
    requires g.Valid() && Sized(g, b) && Invariant(g, b)
    ensures var b', h := Next(g, b, t), t.host;
            var w, w', moved := b.keys.wake, b'.keys.wake, b'.matrix.stable != b.matrix.stable;
            var due := h.suspended && h.wakeAllowed && !w.wakeRequested && moved
                       && exists p :: 0 <= p < g.Positions() && b'.keys.latch.active[p] != 0;
            && w'.wakes == w.wakes + (if due then 1 else 0) && w'.wasSuspended == h.suspended
            && w'.wakeRequested == (if !h.suspended && (moved || w.wasSuspended) then false else w.wakeRequested || due)
  {
    hide Flat, Released, Pressed, Batch, BatchBoots, Scanned, Place, ReportOf, Lit, Retried, Reported, RefsBounded,
         Latched;
    var m := ScanOf(g, b, t);
    ScanReportsDifference(b.matrix, RawOf(t.closed, g.rows, g.columns), t.ms, g.debounceMs);
    if m.changed == NoRows(g.rows) {
      NoDifference(b.matrix.stable, m.stable);
    } else {
      SameRows(b.matrix.stable, m.stable);
    }
  }

  lemma SameRows(s0: seq<Row>, s1: seq<Row>)
    requires |s0| == |s1|
    ensures s0 == s1 ==> XorRows(s0, s1) == NoRows(|s0|)
  {
    if s0 == s1 {
      forall i | 0 <= i < |s0| ensures XorRows(s0, s1)[i] == NoRows(|s0|)[i] {
        assert Xor(s0[i], s1[i]) == {};
      }
    }
  }

  /** While the host stays suspended it is woken at most once. */
  lemma {:induction false} WokenOnce(g: Setup, turns: seq<Turn>, i: nat, j: nat)
    requires g.Valid() && i <= j <= |turns| && forall k :: i <= k < j ==> turns[k].host.suspended
    ensures var w, w' := After(g, turns, i).keys.wake, After(g, turns, j).keys.wake;
            && w.wakes <= w'.wakes == w.wakes + (if !w.wakeRequested && w'.wakeRequested then 1 else 0)
            && (w.wakeRequested ==> w'.wakeRequested)
  {
    hide After, Next;
    if i == j {
    } else {
      WokenOnce(g, turns, i, j - 1);
      AfterStep(g, turns, j);
      NextWakes(g, After(g, turns, j - 1), turns[j - 1]);
    }
  }

  /** The application is asked for the bootloader in exactly those turns in which a boot key
      was pressed, while it listened and the host was awake. */
  lemma BootRequests(g: Setup, turns: seq<Turn>, i: nat)
    requires g.Valid() && i < |turns|
    ensures var b, t, b' := After(g, turns, i), turns[i], After(g, turns, i + 1);
            b'.keys.boots
            == b.keys.boots + if t.host.listening && !t.host.suspended
                                 && (exists p :: 0 <= p < g.Positions() && PressedIn(g, b, t)[p]
                                                 && Classify(b'.keys.latch.active[p]) == Boot)
                              then 1 else 0
  {
    hide After, Next, Place, PressedIn, ReleasedIn, Batch, BatchBoots, Classify;
    var b, t := After(g, turns, i), turns[i];
    RunInvariant(g, turns, i);
    AfterStep(g, turns, i + 1);
    TurnFlags(g, b, t);
    BootsMeans(b.keys.latch, ReleasedIn(g, b, t), PressedIn(g, b, t), t.keymap);
    NextBoots(g, b, t);
  }

  lemma NextBoots(g: Setup, b: Board, t: Turn)
    requires g.Valid() && Sized(g, b) && Invariant(g, b)
    ensures Next(g, b, t).keys.boots
            == b.keys.boots + if t.host.listening && !t.host.suspended
                                 && BatchBoots(b.keys.latch, ReleasedIn(g, b, t), PressedIn(g, b, t), t.keymap)
                              then 1 else 0
  {
    hide Flat, Released, Pressed, Batch, BatchBoots, Scanned, Place, ReportOf, Lit, Retried, Reported, Woken,
         RefsBounded, Latched;
    var m := ScanOf(g, b, t);
    if m.changed == NoRows(g.rows) {
      ScanReportsDifference(b.matrix, RawOf(t.closed, g.rows, g.columns), t.ms, g.debounceMs);
      NoDifference(b.matrix.stable, m.stable);
      NothingFlagged(b.matrix.stable, g.columns);
      EmptyBatch(b.keys.latch, ReleasedIn(g, b, t), PressedIn(g, b, t), t.keymap);
    }
  }

  /** All indicator states the host has set. */
  function AllLeds(turns: seq<Turn>, i: nat): seq<bv8>
    requires i <= |turns|
  {
    if i == 0 then [] else AllLeds(turns, i - 1) + turns[i - 1].host.leds
  }

  lemma {:induction false} ChangesJoin(last: bv8, first: seq<bv8>, second: seq<bv8>)
    ensures Changes(last, first + second) == Changes(last, first) + Changes(LastOf(last, Changes(last, first)), second)
    ensures LastOf(last, Changes(last, first + second))
            == LastOf(LastOf(last, Changes(last, first)), Changes(LastOf(last, Changes(last, first)), second))
    decreases |first|
  {
    hide Changes, LastOf;
    if first == [] {
      NoChange(last);
      assert first + second == second;
    } else {
      var v, rest := first[0], first[1..];
      assert first == [v] + rest && first + second == [v] + (rest + second);
      ChangesJoin(v, rest, second);
      OneChange(last, v, rest);
      OneChange(last, v, rest + second);
      var more := Changes(LastOf(v, Changes(v, rest)), second);
      assert [v] + (Changes(v, rest) + more) == ([v] + Changes(v, rest)) + more;
    }
  }

  /** With an application listening, it is told exactly the changes in the whole sequence of
      indicator states, wherever turns cut it. */
  lemma {:induction false} LedsPassedOn(g: Setup, turns: seq<Turn>, i: nat)
    requires g.Valid() && i <= |turns| && forall k :: 0 <= k < |turns| ==> turns[k].host.listening
    ensures After(g, turns, i).keys.leds
            == LedView(LastOf(0, Changes(0, AllLeds(turns, i))), Changes(0, AllLeds(turns, i)))
  {
    hide After, Next, Changes, LastOf;
    if i == 0 {
      StartLeds(g, turns);
    } else {
      LedsPassedOn(g, turns, i - 1);
      AfterStep(g, turns, i);
      NextLeds(g, After(g, turns, i - 1), turns[i - 1]);
      ChangesJoin(0, AllLeds(turns, i - 1), turns[i - 1].host.leds);
    }
  }

  lemma StartLeds(g: Setup, turns: seq<Turn>)
    requires g.Valid()
    ensures After(g, turns, 0).keys.leds == LedView(LastOf(0, Changes(0, [])), Changes(0, []))
  {
    hide Place;
  }

  lemma NextLeds(g: Setup, b: Board, t: Turn)
    requires g.Valid() && Sized(g, b)
    ensures Next(g, b, t).keys.leds == Lit(b.keys.leds, t.host.leds, t.host.listening)
  {
    hide Flat, Released, Pressed, Batch, BatchBoots, Scanned, Place, ReportOf, Lit, Retried, Reported, Woken;
  }
}
