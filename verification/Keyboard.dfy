/** The keyboard engine: batches of matrix changes become latched codes, layer changes
    and reports handed to the host. */
module KeyboardEngine {
  import opened Keycodes
  import opened Layers
  import opened Matrix
  import opened Reports
  import opened Batches
  import opened Places

  /** The host side as one task sees it. `handed` are the reports handed over so far; `wakes`
      counts wake-up calls. */
  class KeyboardHID {
    var completes: bool
    var isSuspended: bool
    var wakeAllowed: bool
    var leds: seq<bv8>
    ghost var handed: seq<Report>
    var wakes: nat

    method Send(r: Report) returns (ok: bool)
      modifies this`handed
      ensures handed == old(handed) + [r]
    {
      handed := handed + [r];
      ok := *;
    }

    /** The next indicator state the host set, if there is one. */
    method TakeHostLeds() returns (ok: bool, value: bv8)
      modifies this`leds
      ensures ok == (old(leds) != [])
      ensures if ok then value == old(leds[0]) && leds == old(leds[1..]) else leds == old(leds)
    {
      ok, value := leds != [], 0;
      if ok {
        value := leds[0];
        leds := leds[1..];
      }
    }

    method RemoteWakeup() returns (ok: bool)
      modifies this`wakes
      ensures wakes == old(wakes) + 1
    {
      wakes := wakes + 1;
      ok := *;
    }
  }

  /** The application's callbacks, as they were made. */
  class KeyboardCallbacks {
    var ledChanges: seq<bv8>
    var bootRequests: nat

    method HostLedsChanged(value: bv8)
      modifies this`ledChanges
      ensures ledChanges == old(ledChanges) + [value]
    {
      ledChanges := ledChanges + [value];
    }

    method BootloaderRequested()
      modifies this`bootRequests
      ensures bootRequests == old(bootRequests) + 1
    {
      bootRequests := bootRequests + 1;
    }
  }

  /** What one task meets: the host, the indicator states it set, and whether the
      application listens. */
  datatype Host = Host(completes: bool, suspended: bool, wakeAllowed: bool, leds: seq<bv8>, listening: bool)

  /** The report state: what is pending, what the host accepted last, what was handed over. */
  datatype ReportView = ReportView(pending: Report, reportPending: bool, lastAccepted: Report, handed: seq<Report>)

  /** The report last handed over, all zero before the first. */
  function LastHanded(handed: seq<Report>): Report {
    if handed == [] then EMPTY else handed[|handed| - 1]
  }

  /** Suspension and wake-up calls. */
  datatype WakeView = WakeView(wakeRequested: bool, wasSuspended: bool, wakes: nat)

  /** The last indicator state and what the application was told. */
  datatype LedView = LedView(last: bv8, changes: seq<bv8>)

  datatype KeyboardView = KeyboardView(latch: Latch, reports: ReportView, wake: WakeView, leds: LedView, boots: nat)

  /** The report the host is due: the pending one, else the last accepted one. */
  function Due(r: ReportView): Report {
    if r.reportPending then r.pending else r.lastAccepted
  }

  /** The indicator states that differ from the one before. */
  function Changes(last: bv8, leds: seq<bv8>): (r: seq<bv8>)
    decreases |leds|
  {
    if leds == [] then []
    else if leds[0] != last then [leds[0]] + Changes(leds[0], leds[1..])
    else Changes(last, leds[1..])
  }

  function LastOf(last: bv8, values: seq<bv8>): bv8 {
    if values == [] then last else values[|values| - 1]
  }

  /** One more state is passed on exactly when it differs from the one set before it. */
  lemma {:induction false} ChangesGrow(last: bv8, leds: seq<bv8>, v: bv8)
    ensures Changes(last, []) == []
    ensures Changes(last, leds + [v])
            == Changes(last, leds) + if v != (if leds == [] then last else leds[|leds| - 1]) then [v] else []
    decreases |leds|
  {
    if leds == [] {
      assert [v][1..] == [];
    } else {
      ChangesGrow(leds[0], leds[1..], v);
      assert (leds + [v])[1..] == leds[1..] + [v];
      assert leds[1..] != [] ==> leds[1..][|leds| - 2] == leds[|leds| - 1];
    }
  }

  lemma OneChange(last: bv8, value: bv8, more: seq<bv8>)
    ensures Changes(last, [value] + more) == if value != last then [value] + Changes(value, more)
              else Changes(last, more)
    ensures LastOf(last, Changes(last, [value] + more)) == LastOf(value, Changes(value, more))
  {
    assert ([value] + more)[1..] == more;
    var rest := Changes(value, more);
    if rest != [] {
      assert ([value] + rest)[|rest|] == rest[|rest| - 1];
    }
  }

  lemma NoChange(last: bv8)
    ensures Changes(last, []) == [] && LastOf(last, []) == last
  {
  }

  /** Indicator states are passed on when they change, if anyone listens. */
  function Lit(v: LedView, leds: seq<bv8>, listening: bool): LedView {
    if !listening then v
    else LedView(LastOf(v.last, Changes(v.last, leds)), v.changes + Changes(v.last, leds))
  }

  /** The outstanding report is accepted or handed over again. */
  function Retried(r: ReportView, completes: bool): ReportView {
    if !r.reportPending then r
    else if completes then r.(lastAccepted := r.pending, reportPending := false)
    else r.(handed := r.handed + [r.pending])
  }

  /** A report that differs from the one due becomes pending and is handed over. */
  function Reported(r: ReportView, active: seq<bv16>): ReportView {
    var desired := ReportOf(active);
    if desired == Due(r) then r
    else r.(pending := desired, reportPending := true, handed := r.handed + [desired])
  }

  predicate AnyHeld(active: seq<bv16>) {
    exists i :: 0 <= i < |active| && active[i] != 0
  }

  /** A suspended host that allows it is woken once while a key is held. */
  function Woken(w: WakeView, allowed: bool, active: seq<bv16>): WakeView {
    if allowed && !w.wakeRequested && AnyHeld(active) then WakeView(true, true, w.wakes + 1)
    else w.(wasSuspended := true)
  }

  /** The batch of one scan. */
  function Released(changed: seq<Row>, stable: seq<Row>, columns: nat): (f: seq<bool>)
    requires |changed| == |stable| && columns > 0
    ensures |f| == Place(|stable|, columns, 0)
  {
    Flat(ReleasedRows(changed, stable), columns)
  }

  function Pressed(changed: seq<Row>, stable: seq<Row>, columns: nat): (f: seq<bool>)
    requires |changed| == |stable| && columns > 0
    ensures |f| == Place(|stable|, columns, 0)
  {
    Flat(PressedRows(changed, stable), columns)
  }

  /** One task with the changes a scan reported. A boot key pressed while the host is awake
      is passed on. */
  function Tasked(k: KeyboardView, changed: seq<Row>, stable: seq<Row>, columns: nat, keymap: seq<bv16>, host: Host):
    (r: KeyboardView)
    requires k.latch.layers.Valid() && |changed| == |stable| && columns > 0
    requires |k.latch.active| == Place(|stable|, columns, 0)
    ensures r.latch.layers.Valid() && r.latch.layers.count == k.latch.layers.count
            && |r.latch.active| == |k.latch.active|
  {
    var reports, leds := Retried(k.reports, host.completes), Lit(k.leds, host.leds, host.listening);
    var any := changed != NoRows(|changed|);
    if !any && !(k.wake.wasSuspended && !host.suspended) then
      KeyboardView(k.latch, reports, k.wake.(wasSuspended := host.suspended), leds, k.boots)
    else
      var released, pressed := Released(changed, stable, columns), Pressed(changed, stable, columns);
      var latch := if any then Batch(k.latch, released, pressed, keymap) else k.latch;
      var boots := any && BatchBoots(k.latch, released, pressed, keymap);
      if host.suspended then
        KeyboardView(latch, reports, Woken(k.wake, host.wakeAllowed, latch.active), leds, k.boots)
      else
        KeyboardView(latch, Reported(reports, latch.active), WakeView(false, false, k.wake.wakes), leds,
                     k.boots + if boots && host.listening then 1 else 0)
  }

  class Keyboard {
    const rows: nat
    const columns: nat
    const matrix: Matrix
    const hid: KeyboardHID
    const activeCodes: array<bv16>
    const layerState: LayerState
    var pendingReport: Report
    var reportPending: bool
    var lastAcceptedReport: Report
    const callbacks: KeyboardCallbacks?
    var lastHostLeds: bv8
    var wakeRequested: bool
    var wasSuspended: bool

    ghost predicate Valid()
      reads this, matrix, layerState
    {
      && matrix.Valid() && layerState.Valid()
      && matrix.rows == rows && columns > 0
      && activeCodes.Length == Place(rows, columns, 0)
      && activeCodes as object != layerState.refCounts
      && activeCodes as object != matrix.changedRows && activeCodes as object != matrix.stableRows
      && layerState.refCounts as object != matrix.changedRows && layerState.refCounts as object != matrix.stableRows
    }

    ghost function CurrentLatch(): (s: Latch)
      requires Valid()
      reads this, matrix, layerState, layerState.refCounts, activeCodes
      ensures s.layers.Valid() && |s.active| == Place(rows, columns, 0) && s.active == activeCodes[..]
    {
      Latch(activeCodes[..], layerState.View())
    }

    /** What the application has been told. */
    ghost function LedsTold(): seq<bv8>
      reads callbacks
    {
      if callbacks == null then [] else callbacks.ledChanges
    }

    ghost function BootsTold(): nat
      reads callbacks
    {
      if callbacks == null then 0 else callbacks.bootRequests
    }

    ghost function View(): KeyboardView
      requires Valid()
      reads this, matrix, layerState, layerState.refCounts, activeCodes, hid, callbacks
    {
      KeyboardView(CurrentLatch(), ReportsNow(), WakeNow(), LedsNow(), BootsTold())
    }

    ghost function ReportsNow(): ReportView
      reads this, hid
    {
      ReportView(pendingReport, reportPending, lastAcceptedReport, hid.handed)
    }

    ghost function WakeNow(): (w: WakeView)
      reads this, hid
      ensures w.wasSuspended == wasSuspended && w.wakes == hid.wakes
    {
      WakeView(wakeRequested, wasSuspended, hid.wakes)
    }

    ghost function LedsNow(): LedView
      reads this, callbacks
    {
      LedView(lastHostLeds, LedsTold())
    }

    /** Matching dimensions, at most eight rows of 32 columns and 255 positions. */
    constructor (matrix: Matrix, hid: KeyboardHID, activeCodes: array<bv16>, columns: nat, layers: nat,
                 callbacks: KeyboardCallbacks?)
      requires matrix.Valid() && 0 < columns <= 32 && matrix.rows <= 8 && layers <= 32
      requires activeCodes.Length == Place(matrix.rows, columns, 0) <= 255
      requires activeCodes as object != matrix.changedRows && activeCodes as object != matrix.stableRows
      requires forall i :: 0 <= i < activeCodes.Length ==> activeCodes[i] == 0
      ensures Valid() && this.matrix == matrix && this.hid == hid && this.activeCodes == activeCodes
      ensures this.callbacks == callbacks && fresh(layerState) && fresh(layerState.refCounts)
      ensures View() == KeyboardView(Latch(activeCodes[..], LayerView({}, seq(32, _ => 0), layers, 0)),
                                     ReportView(EMPTY, false, EMPTY, hid.handed), WakeView(false, false, hid.wakes),
                                     LedView(0, LedsTold()), BootsTold())
    {
      rows, this.columns, this.matrix, this.hid, this.activeCodes := matrix.rows, columns, matrix, hid, activeCodes;
      this.callbacks, lastHostLeds := callbacks, 0;
      pendingReport, reportPending, lastAcceptedReport := EMPTY, false, EMPTY;
      wakeRequested, wasSuspended := false, false;
      layerState := new LayerState(layers);
    }

    /** First pass: released positions give back the code latched at their press. */
    method ReleaseAll(released: seq<Row>)
      requires Valid() && |released| == rows
      modifies activeCodes, layerState, layerState.refCounts
      ensures Valid()
      ensures CurrentLatch()
              == Sweep(Releasing, old(CurrentLatch()), Flat(released, columns), Place(rows, columns, 0))
    {
      hide Place, Flat, Press, Resolve, IsLayerCode;
      ghost var s, flags := CurrentLatch(), Flat(released, columns);
      PlaceSteps(0, columns, 0);
      for r := 0 to rows
        invariant Valid() && Place(r, columns, 0) <= |flags|
        invariant CurrentLatch() == Sweep(Releasing, s, flags, Place(r, columns, 0))
      {
        PlaceBelow(r, rows, columns, 0);
        if released[r] == {} {
          RowSkips(released, columns, r);
          SweepSkips(Releasing, s, flags, Place(r, columns, 0), Place(r + 1, columns, 0));
          continue;
        }
        for c := 0 to columns
          invariant Valid() && Place(r, columns, c) <= |flags|
          invariant CurrentLatch() == Sweep(Releasing, s, flags, Place(r, columns, c))
        {
          FlatAt(released, columns, r, c);
          PlaceSteps(r, columns, c);
          if c !in released[r] {
            continue;
          }
          var pos := Place(r, columns, c);
          ghost var t := CurrentLatch();
          var code := activeCodes[pos];
          if code == 0x0000 {
            continue;
          }
          if IsLayerCode(code) {
            layerState.ApplyLayerRelease(code);
          }
          activeCodes[pos] := 0x0000;
          assert activeCodes[..] == t.active[pos := 0];
          assert CurrentLatch() == StepAt(Releasing, t, pos);
        }
        PlaceSteps(r, columns, columns);
      }
    }

    /** Second pass: layer and boot keys, each under the layers its predecessors left. */
    method PressLayerKeys(pressed: seq<Row>, keymap: seq<bv16>) returns (boots: bool)
      requires Valid() && |pressed| == rows && |keymap| == Place(layerState.layerCount, Place(rows, columns, 0), 0)
      modifies activeCodes, layerState, layerState.refCounts
      ensures Valid()
      ensures CurrentLatch() == Sweep(PressingLayers(keymap), old(CurrentLatch()), Flat(pressed, columns),
              Place(rows, columns, 0))
      ensures boots == SweepBoots(PressingLayers(keymap), old(CurrentLatch()), Flat(pressed, columns),
              Place(rows, columns, 0))
    {
      hide Place, Flat, Release, Press, Resolve, IsLayerCode, Classify;
      ghost var s, flags := CurrentLatch(), Flat(pressed, columns);
      boots := false;
      PlaceSteps(0, columns, 0);
      for r := 0 to rows
        invariant Valid() && Place(r, columns, 0) <= |flags|
        invariant CurrentLatch() == Sweep(PressingLayers(keymap), s, flags, Place(r, columns, 0))
        invariant boots == SweepBoots(PressingLayers(keymap), s, flags, Place(r, columns, 0))
      {
        PlaceBelow(r, rows, columns, 0);
        if pressed[r] == {} {
          RowSkips(pressed, columns, r);
          SweepSkips(PressingLayers(keymap), s, flags, Place(r, columns, 0), Place(r + 1, columns, 0));
          continue;
        }
        for c := 0 to columns
          invariant Valid() && Place(r, columns, c) <= |flags|
          invariant CurrentLatch() == Sweep(PressingLayers(keymap), s, flags, Place(r, columns, c))
          invariant boots == SweepBoots(PressingLayers(keymap), s, flags, Place(r, columns, c))
        {
          FlatAt(pressed, columns, r, c);
          PlaceSteps(r, columns, c);
          if c !in pressed[r] {
            continue;
          }
          var pos := Place(r, columns, c);
          ghost var t := CurrentLatch();
          var code := layerState.ResolveCode(keymap, activeCodes.Length, pos);
          LayerCodes(code);
          if IsLayerCode(code) {
            layerState.ApplyLayerPress(code);
            activeCodes[pos] := code;
            assert activeCodes[..] == t.active[pos := code];
          } else if Classify(code) == Boot {
            boots := true;
            activeCodes[pos] := code;
            assert activeCodes[..] == t.active[pos := code];
          }
          assert CurrentLatch() == StepAt(PressingLayers(keymap), t, pos);
        }
        PlaceSteps(r, columns, columns);
      }
    }

    /** Third pass: every pressed position that still has no code. */
    method PressRest(pressed: seq<Row>, keymap: seq<bv16>) returns (boots: bool)
      requires Valid() && |pressed| == rows && |keymap| == Place(layerState.layerCount, Place(rows, columns, 0), 0)
      modifies activeCodes, layerState, layerState.refCounts
      ensures Valid()
      ensures CurrentLatch() == Sweep(PressingRest(keymap), old(CurrentLatch()), Flat(pressed, columns),
              Place(rows, columns, 0))
      ensures boots == SweepBoots(PressingRest(keymap), old(CurrentLatch()), Flat(pressed, columns),
              Place(rows, columns, 0))
    {
      hide Place, Flat, Release, Press, Resolve, IsLayerCode, Classify;
      ghost var s, flags := CurrentLatch(), Flat(pressed, columns);
      boots := false;
      PlaceSteps(0, columns, 0);
      for r := 0 to rows
        invariant Valid() && Place(r, columns, 0) <= |flags|
        invariant CurrentLatch() == Sweep(PressingRest(keymap), s, flags, Place(r, columns, 0))
        invariant boots == SweepBoots(PressingRest(keymap), s, flags, Place(r, columns, 0))
      {
        PlaceBelow(r, rows, columns, 0);
        if pressed[r] == {} {
          RowSkips(pressed, columns, r);
          SweepSkips(PressingRest(keymap), s, flags, Place(r, columns, 0), Place(r + 1, columns, 0));
          continue;
        }
        for c := 0 to columns
          invariant Valid() && Place(r, columns, c) <= |flags|
          invariant CurrentLatch() == Sweep(PressingRest(keymap), s, flags, Place(r, columns, c))
          invariant boots == SweepBoots(PressingRest(keymap), s, flags, Place(r, columns, c))
        {
          FlatAt(pressed, columns, r, c);
          PlaceSteps(r, columns, c);
          if c !in pressed[r] {
            continue;
          }
          var pos := Place(r, columns, c);
          ghost var t := CurrentLatch();
          if activeCodes[pos] != 0x0000 {
            continue;
          }
          var code := layerState.ResolveCode(keymap, activeCodes.Length, pos);
          var kind := Classify(code);
          if kind == LayerKey || kind == Boot {
            if kind == Boot {
              boots := true;
            }
            activeCodes[pos] := code;
            assert activeCodes[..] == t.active[pos := code];
            continue;
          }
          if kind == NoKey || kind == Transparent {
            activeCodes[pos] := 0x0000;
            assert activeCodes[..] == t.active[pos := 0];
            continue;
          }
          activeCodes[pos] := code;
          assert activeCodes[..] == t.active[pos := code];
          assert CurrentLatch() == StepAt(PressingRest(keymap), t, pos);
        }
        PlaceSteps(r, columns, columns);
      }
    }

    method Retry()
      requires Valid()
      modifies this`lastAcceptedReport, this`reportPending, hid`handed
      ensures Valid() && CurrentLatch() == old(CurrentLatch()) && LedsNow() == old(LedsNow())
              && WakeNow() == old(WakeNow())
      ensures ReportsNow() == Retried(old(ReportsNow()), hid.completes)
    {
      if reportPending {
        if hid.completes {
          lastAcceptedReport := pendingReport;
          reportPending := false;
        } else {
          var again := hid.Send(pendingReport);
        }
      }
    }

    function CurrentHost(): Host
      reads hid`completes, hid`isSuspended, hid`wakeAllowed, hid`leds
    {
      Host(hid.completes, hid.isSuspended, hid.wakeAllowed, hid.leds, callbacks != null)
    }

    method RunBatch(changed: seq<Row>, stable: seq<Row>, keymap: seq<bv16>) returns (boots: bool)
      requires Valid() && |changed| == |stable| == rows
      requires |keymap| == Place(layerState.layerCount, Place(rows, columns, 0), 0)
      modifies activeCodes, layerState, layerState.refCounts
      ensures Valid()
      ensures CurrentLatch() == Batch(old(CurrentLatch()), Released(changed, stable, columns),
                                      Pressed(changed, stable, columns), keymap)
      ensures ReportsNow() == old(ReportsNow()) && LedsNow() == old(LedsNow()) && WakeNow() == old(WakeNow())
      ensures boots == BatchBoots(old(CurrentLatch()), Released(changed, stable, columns),
                                  Pressed(changed, stable, columns), keymap)
    {
      hide Place, Flat, Sweep, SweepBoots;
      var released, pressed := ReleasedRows(changed, stable), PressedRows(changed, stable);
      ReleaseAll(released);
      boots := PressLayerKeys(pressed, keymap);
      var more := PressRest(pressed, keymap);
      boots := boots || more;
    }

    /** Passes on every indicator state that differs from the one before. */
    method TakeLeds()
      requires Valid()
      modifies this`lastHostLeds, hid`leds, callbacks
      ensures LedsNow() == Lit(old(LedsNow()), old(hid.leds), callbacks != null) && BootsTold() == old(BootsTold())
      ensures Valid() && CurrentLatch() == old(CurrentLatch()) && ReportsNow() == old(ReportsNow())
              && WakeNow() == old(WakeNow())
      ensures hid.leds == []
    {
      hide Changes, LastOf;
      assert hid.leds != [] ==> [hid.leds[0]] + hid.leds[1..] == hid.leds;
      var more, value := hid.TakeHostLeds();
      NoChange(lastHostLeds);
      while more
        invariant callbacks == null ==> lastHostLeds == old(lastHostLeds)
        invariant BootsTold() == old(BootsTold())
        invariant more || hid.leds == []
        invariant callbacks != null ==>
                    var left := if more then [value] + hid.leds else [];
                    && LedsTold() + Changes(lastHostLeds, left)
                       == old(LedsTold()) + Changes(old(lastHostLeds), old(hid.leds))
                    && LastOf(lastHostLeds, Changes(lastHostLeds, left))
                       == LastOf(old(lastHostLeds), Changes(old(lastHostLeds), old(hid.leds)))
        decreases |hid.leds| + if more then 1 else 0
      {
        OneChange(lastHostLeds, value, hid.leds);
        assert hid.leds != [] ==> [hid.leds[0]] + hid.leds[1..] == hid.leds;
        if callbacks != null && value != lastHostLeds {
          lastHostLeds := value;
          callbacks.HostLedsChanged(value);
        }
        more, value := hid.TakeHostLeds();
      }
      NoChange(lastHostLeds);
    }

    /** A host that allows it is woken once while any key is held. */
    method NoteWake()
      requires Valid()
      modifies this`wakeRequested, this`wasSuspended, hid`wakes
      ensures WakeNow() == Woken(old(WakeNow()), hid.wakeAllowed, activeCodes[..])
    {
      wasSuspended := true;
      if hid.wakeAllowed && !wakeRequested {
        for i := 0 to activeCodes.Length
          invariant !wakeRequested && hid.wakes == old(hid.wakes) && forall k :: 0 <= k < i ==> activeCodes[k] == 0
        {
          if activeCodes[i] != 0x0000 {
            assert activeCodes[..][i] != 0;
            var woken := hid.RemoteWakeup();
            wakeRequested := true;
            break;
          }
        }
      }
    }

    method SendReport()
      requires Valid()
      modifies this`pendingReport, this`reportPending, hid`handed
      ensures ReportsNow() == Reported(old(ReportsNow()), activeCodes[..])
    {
      hide ReportOf;
      var desired := BuildReport(activeCodes);
      if reportPending {
        if desired != pendingReport {
          pendingReport := desired;
          var handed := hid.Send(desired);
        }
      } else {
        if desired != lastAcceptedReport {
          pendingReport := desired;
          reportPending := true;
          var handed := hid.Send(desired);
        }
      }
    }

    /** Nothing happened but what the host did. */
    method NoteSuspension()
      requires Valid()
      modifies this`wasSuspended
      ensures Valid() && CurrentLatch() == old(CurrentLatch()) && LedsNow() == old(LedsNow())
              && ReportsNow() == old(ReportsNow())
      ensures WakeNow() == old(WakeNow()).(wasSuspended := hid.isSuspended)
    {
      wasSuspended := hid.isSuspended;
    }

    /** After the batch: a suspended host may be woken, an awake one gets the report and the
        application a boot request. */
    method Settle(boots: bool)
      requires Valid()
      modifies this, hid`handed, hid`wakes, callbacks
      ensures Valid() && CurrentLatch() == old(CurrentLatch()) && LedsNow() == old(LedsNow())
      ensures ReportsNow() == if hid.isSuspended then old(ReportsNow())
                else Reported(old(ReportsNow()), activeCodes[..])
      ensures WakeNow() == if hid.isSuspended then Woken(old(WakeNow()), hid.wakeAllowed, activeCodes[..])
                           else WakeView(false, false, old(hid.wakes))
      ensures BootsTold() == old(BootsTold()) + if !hid.isSuspended && boots && callbacks != null then 1 else 0
    {
      hide ReportOf, Reported, Woken, AnyHeld;
      if hid.isSuspended {
        NoteWake();
        return;
      }
      wasSuspended := false;
      wakeRequested := false;
      SendReport();
      if boots && callbacks != null {
        callbacks.BootloaderRequested();
      }
    }

    /** One main-loop step after a matrix scan; `keymap` is the live keymap at this moment. */
    method Task(keymap: seq<bv16>)
      requires Valid() && |keymap| == Place(layerState.layerCount, Place(rows, columns, 0), 0)
      modifies this, hid`handed, hid`leds, hid`wakes, callbacks
      modifies activeCodes, layerState, layerState.refCounts, matrix.changedRows
      ensures Valid() && matrix.changedRows[..] == NoRows(rows) && hid.leds == []
      ensures View() == Tasked(old(View()), old(matrix.changedRows[..]), matrix.stableRows[..], columns, keymap,
              old(CurrentHost()))
    {
      hide Place, Flat, Batch, BatchBoots, Sweep, ReportOf, Retried, Reported, Lit, Woken, AnyHeld, Released, Pressed,
           Changes, LastOf, CurrentLatch, ReportsNow, LedsNow, WakeNow;
      TakeLeds();
      Retry();
      var changed, stable := matrix.changedRows[..], matrix.stableRows[..];
      var any := matrix.HasChanged();
      if !any && !(wasSuspended && !hid.isSuspended) {
        NoteSuspension();
        return;
      }
      var boots := false;
      if any {
        boots := RunBatch(changed, stable, keymap);
      }
      Settle(boots);
    }
  }
}
