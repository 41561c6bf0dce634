/** Power-ups: the adapter reads the medium, Protocol loads what it staged, and the main
    loop runs tasks. */
module StartUp {
  import opened Bytes
  import opened Options
  import opened Media
  import opened InternalFS
  import opened Backends
  import opened Layout
  import opened Handlers
  import opened ViaProtocol
  import opened Commands
  import Durability
  import FileImage
  import Mailbox

  /** A transport that has passed nothing yet, with a mailbox of its own if it has one. */
  ghost predicate Unused(transport: Transport, buffers: set<array<byte>>)
    reads transport, transport.slot
    reads if transport.slot == null then {} else {transport.slot.requestBuffer}
  {
    && transport.Linked() && transport.received == [] && transport.sent == [] && transport.attempts == []
    && (transport.slot != null ==> transport.slot.requestBuffer !in buffers)
  }

  /** On files: what is live afterwards is what the two files left by any run hold. */
  method StartOnFiles(fs: FileSystem, staging: array<byte>, config: Config, transport: Transport, ram: array<byte>,
                      custom: CustomValue?, callbacks: Callbacks?, nowMs: uint32)
    returns (ok: bool, p: Protocol?)
    requires staging.Length < WORD_LIMIT && ram != staging
    requires Mapped(config, ram.Length) && Separate(config)
    requires custom != null ==> custom.Valid()
    requires Unused(transport, {ram, staging})
    modifies staging, ram, custom, callbacks
    ensures ok ==> p != null && fresh(p) && p.Valid() && p.PipelineInv() && transport.Linked() && fs.on
    ensures ok ==> p.ram == ram && p.config == config && p.custom == custom
    ensures ok ==> p.transport == transport && p.callbacks == callbacks && fresh(p.pendingResponse)
    ensures ok ==> p.replies == [] && transport.received == []
    ensures ok ==> p.storage.Some? && p.storage.value.OnFiles? && fresh(p.storage.value.fs)
    ensures ok ==> p.storage.value.fs.staging == staging && p.storage.value.fs.fs == fs
    ensures ok && p.Persistent() ==> p.View() == Durability.BootState(p.Setup(), FilesMedium(fs.files, 0, true))
  {
    hide Separate, Mapped, KeymapBytes, EncoderMapBytes, DefaultCore, Core, Durability.LiveAfter, FileImage.BeginResult,
         Durability.BootState, Protocol.View, Protocol.Setup, Protocol.Live, Protocol.PipelineInv, Mailbox.Run;
    p := null;
    var adapter := new InternalFSStorage(fs, staging);
    ok := adapter.Begin();
    if !ok {
      return;
    }
    p := new Protocol(config, transport, ram, Some(OnFiles(adapter)), custom, callbacks);
    ok := p.Begin(nowMs);
    p.IdleIsInv();
    if ok && p.Persistent() {
      p.StartedIs(FilesMedium(fs.files, 0, true));
    }
  }

  /** On NVS: what is live afterwards is what the blob holds. */
  method StartOnNvs(prefs: Preferences, config: Config, transport: Transport, ram: array<byte>,
                    custom: CustomValue?, callbacks: Callbacks?, nowMs: uint32)
    returns (ok: bool, p: Protocol?)
    requires Mapped(config, ram.Length) && Separate(config)
    requires custom != null ==> custom.Valid()
    requires Unused(transport, {ram})
    modifies ram, custom, callbacks
    ensures ok ==> p != null && fresh(p) && p.Valid() && p.PipelineInv() && transport.Linked() && prefs.on
    ensures ok ==> p.ram == ram && p.config == config && p.custom == custom
    ensures ok ==> p.transport == transport && p.callbacks == callbacks && fresh(p.pendingResponse)
    ensures ok ==> p.replies == [] && transport.received == []
    ensures ok ==> p.storage.Some? && p.storage.value.OnNvs? && fresh(p.storage.value.nvs)
    ensures ok ==> fresh(p.storage.value.nvs.shadow) && p.storage.value.nvs.prefs == prefs
    ensures ok && p.Persistent() ==> p.View() == Durability.BootState(p.Setup(), NvsMedium(prefs.blob))
  {
    hide Separate, Mapped, KeymapBytes, EncoderMapBytes, DefaultCore, Core, Durability.LiveAfter, Fill,
         Durability.BootState, Protocol.View, Protocol.Setup, Protocol.Live, Protocol.PipelineInv, Mailbox.Run;
    p := null;
    var adapter := new NVSStorage(prefs);
    ok := adapter.Begin();
    if !ok {
      return;
    }
    p := new Protocol(config, transport, ram, Some(OnNvs(adapter)), custom, callbacks);
    ok := p.Begin(nowMs);
    p.IdleIsInv();
    if ok && p.Persistent() {
      p.StartedIs(NvsMedium(prefs.blob));
    }
  }

  /** One task: when it ran, the request it answered with its reply, whether storage was
      steady for it, the state its answer left and the state after its timed save. */
  datatype Turn = Turn(at: nat, answer: Option<(Packet, Packet)>, steady: bool, mid: Durability.System,
                       after: Durability.System)

  predicate Edited(config: Config, t: Turn) {
    t.answer.Some? && Edits(config, t.answer.value.0, t.answer.value.1)
  }

  /** Task `e` answered the last edit up to task `k`. */
  predicate LastEdit(config: Config, turns: seq<Turn>, e: nat, k: nat)
    requires k < |turns|
  {
    e <= k && Edited(config, turns[e]) && forall j :: e < j <= k ==> !Edited(config, turns[j])
  }

  /** No task saves before the configured time has passed since the last edit, and any later
      one that comes within half a clock period saves dirty state when nothing goes wrong. */
  ghost predicate Timely(c: Durability.Setup, config: Config, turns: seq<Turn>) {
    forall e: nat, k: nat :: k < |turns| && LastEdit(config, turns, e, k) ==>
      var t, due := turns[k], turns[e].at + config.autoSaveMs;
      && (t.at < due ==> t.after == t.mid)
      && (due <= t.at < due + 0x8000_0000 && t.mid.dirty && t.steady && c.saves ==>
            Durability.Sized(c, t.mid) && !t.after.dirty && Durability.SaveEffect(c, t.mid, t.after, true))
  }

  /** The 32-bit comparison of the source against real time. */
  lemma DueIsTime(edit: nat, delay: nat, now: nat)
    requires edit <= now && delay < 0x8000_0000
    ensures now < edit + delay ==>
              (now % WORD_LIMIT - (edit % WORD_LIMIT + delay) % WORD_LIMIT) % WORD_LIMIT >= 0x8000_0000
    ensures edit + delay <= now < edit + delay + 0x8000_0000 ==>
              (now % WORD_LIMIT - (edit % WORD_LIMIT + delay) % WORD_LIMIT) % WORD_LIMIT < 0x8000_0000
  {
    Wrapped(edit, delay);
    Behind(now, edit + delay);
  }

  /** The difference of two clock readings is that of the times, up to whole periods. */
  lemma Behind(a: nat, b: nat)
    ensures b <= a < b + WORD_LIMIT ==> (a % WORD_LIMIT - b % WORD_LIMIT) % WORD_LIMIT == a - b
    ensures a < b <= a + WORD_LIMIT ==> (a % WORD_LIMIT - b % WORD_LIMIT) % WORD_LIMIT == a - b + WORD_LIMIT
  {
    var m, n := a / WORD_LIMIT, b / WORD_LIMIT;
    var x, y := a % WORD_LIMIT, b % WORD_LIMIT;
    assert a == m * WORD_LIMIT + x && b == n * WORD_LIMIT + y;
    if b <= a < b + WORD_LIMIT {
      assert m == n || m == n + 1;
    }
    if a < b <= a + WORD_LIMIT {
      assert n == m || n == m + 1;
    }
  }

  lemma Wrapped(a: nat, b: nat)
    ensures (a % WORD_LIMIT + b) % WORD_LIMIT == (a + b) % WORD_LIMIT
  {
  }

  function RequestsOf(turns: seq<Turn>): seq<Packet> {
    if turns == [] then []
    else
      var t := turns[|turns| - 1];
      RequestsOf(turns[..|turns| - 1]) + if t.answer.Some? then [t.answer.value.0] else []
  }

  function RepliesOf(turns: seq<Turn>): seq<Packet> {
    if turns == [] then []
    else
      var t := turns[|turns| - 1];
      RepliesOf(turns[..|turns| - 1]) + if t.answer.Some? then [t.answer.value.1] else []
  }

  /** The timer shows the last edit. */
  ghost predicate Stamped(config: Config, turns: seq<Turn>, saveAt: uint32) {
    forall e: nat :: turns != [] && LastEdit(config, turns, e, |turns| - 1) ==>
      saveAt == (turns[e].at % WORD_LIMIT + config.autoSaveMs) % WORD_LIMIT
  }

  lemma StampedStep(config: Config, turns: seq<Turn>, before: uint32, t: Turn, saveAt: uint32)
    requires Stamped(config, turns, before)
    requires saveAt == if Edited(config, t) then (t.at % WORD_LIMIT + config.autoSaveMs) % WORD_LIMIT else before
    ensures Stamped(config, turns + [t], saveAt)
  {
    hide Edited;
    var more, n := turns + [t], |turns|;
    forall e: nat | LastEdit(config, more, e, n)
      ensures saveAt == (more[e].at % WORD_LIMIT + config.autoSaveMs) % WORD_LIMIT
    {
      assert more[n] == t;
      if e < n {
        assert forall j :: e <= j < n ==> more[j] == turns[j];
        assert LastEdit(config, turns, e, n - 1);
      }
    }
  }

  lemma TimelyStep(c: Durability.Setup, config: Config, turns: seq<Turn>, t: Turn, saveAt: uint32)
    requires Timely(c, config, turns) && Stamped(config, turns + [t], saveAt) && config.autoSaveMs < 0x8000_0000
    requires forall k :: 0 <= k < |turns| ==> turns[k].at <= t.at
    requires var due := (t.at % WORD_LIMIT - saveAt) % WORD_LIMIT < 0x8000_0000;
             && (!(t.mid.dirty && due) ==> t.after == t.mid)
             && (t.mid.dirty && due && t.steady && c.saves ==>
                   Durability.Sized(c, t.mid) && !t.after.dirty && Durability.SaveEffect(c, t.mid, t.after, true))
    ensures Timely(c, config, turns + [t])
  {
    hide Edited, Durability.SaveEffect, Durability.Sized;
    var more, n := turns + [t], |turns|;
    forall e: nat, k: nat | k < |more| && LastEdit(config, more, e, k)
      ensures more[k].at < more[e].at + config.autoSaveMs ==> more[k].after == more[k].mid
      ensures more[e].at + config.autoSaveMs <= more[k].at < more[e].at + config.autoSaveMs + 0x8000_0000
              && more[k].mid.dirty && more[k].steady && c.saves ==>
                Durability.Sized(c, more[k].mid) && !more[k].after.dirty
                && Durability.SaveEffect(c, more[k].mid, more[k].after, true)
    {
      if k < n {
        assert forall j :: e <= j <= k ==> more[j] == turns[j];
        assert LastEdit(config, turns, e, k);
      } else {
        assert more[k] == t && more[e].at <= t.at;
        SavedInTime(c, t, more[e].at, config.autoSaveMs, saveAt);
      }
    }
  }

  lemma SavedInTime(c: Durability.Setup, t: Turn, edit: nat, delay: nat, saveAt: uint32)
    requires edit <= t.at && delay < 0x8000_0000 && saveAt == (edit % WORD_LIMIT + delay) % WORD_LIMIT
    requires var due := (t.at % WORD_LIMIT - saveAt) % WORD_LIMIT < 0x8000_0000;
             && (!(t.mid.dirty && due) ==> t.after == t.mid)
             && (t.mid.dirty && due && t.steady && c.saves ==>
                   Durability.Sized(c, t.mid) && !t.after.dirty && Durability.SaveEffect(c, t.mid, t.after, true))
    ensures t.at < edit + delay ==> t.after == t.mid
    ensures edit + delay <= t.at < edit + delay + 0x8000_0000 && t.mid.dirty && t.steady && c.saves ==>
              Durability.Sized(c, t.mid) && !t.after.dirty && Durability.SaveEffect(c, t.mid, t.after, true)
  {
    hide Durability.SaveEffect, Durability.Sized;
    DueIsTime(edit, delay, t.at);
  }

  /** The state before task `k`. */
  function Before(first: Durability.System, turns: seq<Turn>, k: nat): Durability.System
    requires k <= |turns|
  {
    if k == 0 then first else turns[k - 1].after
  }

  /** All states passed: the first one, and two for each task. */
  function PassedBy(first: Durability.System, turns: seq<Turn>): (r: seq<Durability.System>)
    ensures |r| == 1 + 2 * |turns|
  {
    seq(1 + 2 * |turns|, i requires 0 <= i < 1 + 2 * |turns| =>
      if i % 2 == 1 then turns[i / 2].mid else Before(first, turns, i / 2))
  }

  ghost predicate Chained(c: Durability.Setup, first: Durability.System, turns: seq<Turn>) {
    forall k :: 0 <= k < |turns| ==>
      Durability.Effect(c, Before(first, turns, k), turns[k].mid) && Durability.Effect(c, turns[k].mid, turns[k].after)
  }

  lemma ChainStep(c: Durability.Setup, first: Durability.System, turns: seq<Turn>, t: Turn)
    requires Chained(c, first, turns)
    requires Durability.Effect(c, Before(first, turns, |turns|), t.mid) && Durability.Effect(c, t.mid, t.after)
    ensures Chained(c, first, turns + [t]) && Before(first, turns + [t], |turns| + 1) == t.after
  {
    hide Durability.Effect;
    var more := turns + [t];
    forall k | 0 <= k < |more|
      ensures Durability.Effect(c, Before(first, more, k), more[k].mid)
      ensures Durability.Effect(c, more[k].mid, more[k].after)
    {
      assert Before(first, more, k) == Before(first, turns, k);
      if k < |turns| {
        assert more[k] == turns[k];
      }
    }
  }

  lemma PassedAt(first: Durability.System, turns: seq<Turn>, k: nat)
    requires k < |turns|
    ensures var passed := PassedBy(first, turns);
            && passed[2 * k] == Before(first, turns, k) && passed[2 * k + 1] == turns[k].mid
            && passed[2 * k + 2] == turns[k].after
    ensures PassedBy(first, turns)[0] == first
    ensures PassedBy(first, turns)[2 * |turns|] == Before(first, turns, |turns|)
  {
    hide Before;
    assert (2 * k) / 2 == k && (2 * k + 1) / 2 == k && (2 * k + 2) / 2 == k + 1 && (2 * |turns|) / 2 == |turns|;
    assert Before(first, turns, k + 1) == turns[k].after && Before(first, turns, 0) == first by {
      AfterIsNext(first, turns, k);
    }
  }

  lemma AfterIsNext(first: Durability.System, turns: seq<Turn>, k: nat)
    requires k < |turns|
    ensures Before(first, turns, k + 1) == turns[k].after && Before(first, turns, 0) == first
  {
  }

  lemma ChainPassed(c: Durability.Setup, first: Durability.System, turns: seq<Turn>)
    requires Chained(c, first, turns)
    ensures var passed, n := PassedBy(first, turns), |turns|;
            && Durability.Passed(c, passed) && passed[0] == first && passed[2 * n] == Before(first, turns, n)
            && forall k :: 0 <= k < n ==> passed[2 * k + 1] == turns[k].mid && passed[2 * k + 2] == turns[k].after
  {
    hide Durability.Effect, PassedBy, Before;
    var passed, n := PassedBy(first, turns), |turns|;
    if n == 0 {
      NoneBefore(first);
    } else {
      PassedAt(first, turns, 0);
    }
    forall k | 0 <= k < n ensures passed[2 * k + 1] == turns[k].mid && passed[2 * k + 2] == turns[k].after {
      PassedAt(first, turns, k);
    }
    forall i | 0 <= i < |passed| - 1 ensures Durability.Effect(c, passed[i], passed[i + 1]) {
      PassedAt(first, turns, i / 2);
      assert i == 2 * (i / 2) || i == 2 * (i / 2) + 1;
    }
  }

  lemma NoneBefore(first: Durability.System)
    ensures PassedBy(first, []) == [first] && Before(first, [], 0) == first
  {
  }

  /** The most that `n` tasks can ask of the storage. */
  function Budget(p: Protocol, n: nat): nat {
    if n == 0 then 0 else p.WorstCost() + p.WorstCost() + Budget(p, n - 1)
  }

  /** The main loop, one task at each of these times: the states it passes, two a task, are
      protocol steps of one configuration, and its timed saves come when they should. */
  method RunTasks(p: Protocol, times: seq<nat>)
    returns (ghost passed: seq<Durability.System>, ghost turns: seq<Turn>)
    requires p.Valid() && p.PipelineInv() && p.transport.Linked()
    requires forall i, j :: 0 <= i < j < |times| ==> times[i] <= times[j]
    modifies p, p.transport, p.transport.slot, p.ram, p.custom, p.callbacks, p.pendingResponse
    modifies if p.callbacks == null then {} else {p.callbacks.bootloader}
    modifies if p.storage.Some? then {p.storage.value.Buffer()} + p.storage.value.Device() else {}
    ensures p.Valid() && p.PipelineInv() && p.transport.Linked()
    ensures p.replies == old(p.replies) + RepliesOf(turns)
    ensures p.transport.received == old(p.transport.received) + RequestsOf(turns)
    ensures |turns| == |times| && forall k :: 0 <= k < |turns| ==> turns[k].at == times[k]
    ensures p.Persistent() ==>
              && p.Setup() == old(p.Setup()) && Durability.Passed(p.Setup(), passed)
              && |passed| == 1 + 2 * |times| && passed[0] == old(p.View()) && passed[2 * |times|] == p.View()
              && (forall k :: 0 <= k < |turns| ==>
                    turns[k].mid == passed[2 * k + 1] && turns[k].after == passed[2 * k + 2])
    ensures p.Persistent() && p.config.autoSaveMs < 0x8000_0000 ==> Timely(p.Setup(), p.config, turns)
    ensures p.storage.Some? && old(p.storage.value.Steady(Budget(p, |times|))) ==>
              forall k :: 0 <= k < |turns| ==> turns[k].steady
  {
    hide Separate, Mapped, KeymapBytes, EncoderMapBytes, DefaultCore, Core, Durability.Effect, Durability.SaveEffect,
         Protocol.View, Protocol.Setup, Protocol.Live, Protocol.PipelineInv, Protocol.Valid, Mailbox.Run,
         Protocol.Answers, Protocol.Succeeds, Protocol.Refused, Answered, Honest, Timely, Stamped, Edits,
         Durability.Sized, Protocol.WorstCost, Protocol.Saves, Chained, Before, PassedBy, RepliesOf, RequestsOf,
         Durability.Passed;
    passed, turns := [], [];
    ghost var first := Durability.System(NoMedium, [], [], false);
    if p.Persistent() {
      first := p.View();
      NoneLate(p.Setup(), p.config);
    }
    NoTurns(p.config, p.saveAt, first);
    for i := 0 to |times|
      invariant p.Valid() && p.PipelineInv() && p.transport.Linked()
      invariant p.replies == old(p.replies) + RepliesOf(turns)
      invariant p.transport.received == old(p.transport.received) + RequestsOf(turns)
      invariant |turns| == i && forall k :: 0 <= k < i ==> turns[k].at == times[k]
      invariant Stamped(p.config, turns, p.saveAt)
      invariant p.Persistent() ==>
                  && p.Setup() == old(p.Setup()) && Chained(p.Setup(), first, turns)
                  && Before(first, turns, i) == p.View()
      invariant p.Persistent() && p.config.autoSaveMs < 0x8000_0000 ==> Timely(p.Setup(), p.config, turns)
      invariant p.storage.Some? && old(p.storage.value.Steady(Budget(p, |times|))) ==>
                  p.storage.value.Steady(Budget(p, |times| - i)) && forall k :: 0 <= k < i ==> turns[k].steady
    {
      ghost var t, stamp := OneTask(p, times[i]);
      StampedStep(p.config, turns, stamp, t, p.saveAt);
      if p.Persistent() {
        ChainStep(p.Setup(), first, turns, t);
        if p.config.autoSaveMs < 0x8000_0000 {
          TimelyStep(p.Setup(), p.config, turns, t, p.saveAt);
        }
      }
      OneMoreTurn(turns, t);
      turns := turns + [t];
    }
    if p.Persistent() {
      ChainPassed(p.Setup(), first, turns);
      passed := PassedBy(first, turns);
    }
  }

  lemma OneMoreTurn(turns: seq<Turn>, t: Turn)
    ensures RepliesOf(turns + [t]) == RepliesOf(turns) + if t.answer.Some? then [t.answer.value.1] else []
    ensures RequestsOf(turns + [t]) == RequestsOf(turns) + if t.answer.Some? then [t.answer.value.0] else []
  {
    assert (turns + [t])[..|turns|] == turns;
  }

  lemma NoTurns(config: Config, saveAt: uint32, first: Durability.System)
    ensures Stamped(config, [], saveAt) && RepliesOf([]) == [] && RequestsOf([]) == []
    ensures Before(first, [], 0) == first && forall c :: Chained(c, first, [])
  {
  }

  lemma NoneLate(c: Durability.Setup, config: Config)
    ensures Timely(c, config, [])
  {
  }

  /** One task as a turn of the loop; `stamp` is the timer before it. */
  method OneTask(p: Protocol, at: nat) returns (ghost t: Turn, ghost stamp: uint32)
    requires p.Valid() && p.PipelineInv() && p.transport.Linked()
    modifies p, p.transport, p.transport.slot, p.ram, p.custom, p.callbacks, p.pendingResponse
    modifies if p.callbacks == null then {} else {p.callbacks.bootloader}
    modifies if p.storage.Some? then {p.storage.value.Buffer()} + p.storage.value.Device() else {}
    ensures p.Valid() && p.PipelineInv() && p.transport.Linked() && t.at == at && stamp == old(p.saveAt)
    ensures if t.answer.Some?
            then p.replies == old(p.replies) + [t.answer.value.1]
                 && p.transport.received == old(p.transport.received) + [t.answer.value.0]
            else p.replies == old(p.replies) && p.transport.received == old(p.transport.received)
    ensures p.saveAt == if Edited(p.config, t) then (at % WORD_LIMIT + p.config.autoSaveMs) % WORD_LIMIT else stamp
    ensures p.Persistent() ==>
              && p.Setup() == old(p.Setup()) && t.after == p.View()
              && Durability.Effect(p.Setup(), old(p.View()), t.mid) && Durability.Effect(p.Setup(), t.mid, t.after)
              && Durability.Sized(p.Setup(), t.mid)
    ensures p.Persistent() ==>
              var due := (at % WORD_LIMIT - p.saveAt) % WORD_LIMIT < 0x8000_0000;
              && (!(t.mid.dirty && due) ==> t.after == t.mid)
              && (t.mid.dirty && due && t.steady && p.Setup().saves ==>
                    !t.after.dirty && Durability.SaveEffect(p.Setup(), t.mid, t.after, true))
    ensures p.storage.Some? ==>
              var cost := p.WorstCost() + p.WorstCost();
              && t.steady == old(p.storage.value.Steady(cost))
              && (forall more: nat :: old(p.storage.value.Steady(cost + more)) ==> p.storage.value.Steady(more))
  {
    hide Separate, Mapped, KeymapBytes, EncoderMapBytes, DefaultCore, Core, Durability.SaveEffect,
         Durability.ResetEffect, Durability.EditEffect, Protocol.View, Protocol.Setup, Protocol.Live,
         Protocol.PipelineInv, Protocol.Valid, Mailbox.Run, Protocol.Answers, Protocol.Succeeds, Protocol.Refused,
         Answered, Honest, Edits, Durability.Sized, Protocol.WorstCost, Protocol.Saves;
    ghost var steady := p.storage.Some? && p.storage.value.Steady(p.WorstCost() + p.WorstCost());
    if p.storage.Some? {
      p.SaveIsCheap();
    }
    stamp := p.saveAt;
    p.OneForOne();
    ghost var n := |p.replies|;
    ghost var mid, answered := p.Task(at % WORD_LIMIT);
    p.OneForOne();
    ghost var answer := if |p.replies| > n then Some((p.transport.received[n], p.replies[n])) else None;
    ghost var after := mid;
    if p.storage.Some? {
      after := p.View();
    }
    t := Turn(at, answer, steady, mid, after);
  }

  /** A power-up on files from start to end, after any run that left these files: the start
      and all its tasks continue that run, so what holds of every run holds of the real
      objects, power-up after power-up. */
  method RunOnFiles(fs: FileSystem, staging: array<byte>, config: Config, transport: Transport, ram: array<byte>,
                    custom: CustomValue?, callbacks: Callbacks?, nowMs: uint32, times: seq<nat>,
                    ghost c: Durability.Setup, ghost ss: seq<Durability.System>, ghost aa: seq<Durability.Abstract>,
                    ghost ee: seq<Durability.Event>)
    returns (ok: bool, p: Protocol?, ghost passed: seq<Durability.System>, ghost aa': seq<Durability.Abstract>,
             ghost ee': seq<Durability.Event>, ghost turns: seq<Turn>)
    requires staging.Length < WORD_LIMIT && ram != staging
    requires Mapped(config, ram.Length) && Separate(config)
    requires custom != null ==> custom.Valid()
    requires Unused(transport, {ram, staging})
    requires forall i, j :: 0 <= i < j < |times| ==> times[i] <= times[j]
    requires Durability.IsRun(c, ss, aa, ee) && ss[|ee|].medium.FilesMedium? && ss[|ee|].medium.files == fs.files
    modifies staging, ram, custom, callbacks, transport, transport.slot, fs
    modifies if callbacks == null then {} else {callbacks.bootloader}
    ensures ok ==> p != null && p.Valid() && p.PipelineInv() && transport.Linked() && p.transport == transport
    ensures ok && p.Persistent() && p.Setup() == c && Durability.AllLive(c, passed) ==>
              && Durability.IsRun(c, ss + passed, aa + aa', ee + ee')
              && |passed| == 1 + 2 * |times| && |ee'| == |passed| && ee'[0] == Durability.Boot
              && passed[2 * |times|] == p.View()
    ensures ok ==> p.replies == RepliesOf(turns) && transport.received == RequestsOf(turns) && p.config == config
    ensures ok && p.Persistent() && config.autoSaveMs < 0x8000_0000 ==> Timely(p.Setup(), config, turns)
  {
    hide Separate, Mapped, KeymapBytes, EncoderMapBytes, DefaultCore, Core, Durability.BootState, Protocol.View,
         Protocol.Setup, Protocol.Live, Protocol.PipelineInv, Mailbox.Run, Protocol.Persistent, Durability.Passed,
         Durability.Next, Durability.Sized;
    passed, aa', ee', turns := [], [], [], [];
    ok, p := StartOnFiles(fs, staging, config, transport, ram, custom, callbacks, nowMs);
    if !ok {
      return;
    }
    Durability.SameBoot(c, ss[|ee|].medium, fs.files);
    passed, turns := RunTasks(p, times);
    if p.Persistent() && p.Setup() == c && Durability.AllLive(c, passed) {
      aa', ee' := Durability.Continue(c, ss, aa, ee, passed);
    }
  }

  /** The same on NVS. */
  method RunOnNvs(prefs: Preferences, config: Config, transport: Transport, ram: array<byte>, custom: CustomValue?,
                  callbacks: Callbacks?, nowMs: uint32, times: seq<nat>, ghost c: Durability.Setup,
                  ghost ss: seq<Durability.System>, ghost aa: seq<Durability.Abstract>, ghost ee: seq<Durability.Event>)
    returns (ok: bool, p: Protocol?, ghost passed: seq<Durability.System>, ghost aa': seq<Durability.Abstract>,
             ghost ee': seq<Durability.Event>, ghost turns: seq<Turn>)
    requires Mapped(config, ram.Length) && Separate(config)
    requires custom != null ==> custom.Valid()
    requires Unused(transport, {ram})
    requires forall i, j :: 0 <= i < j < |times| ==> times[i] <= times[j]
    requires Durability.IsRun(c, ss, aa, ee) && ss[|ee|].medium == NvsMedium(prefs.blob)
    modifies ram, custom, callbacks, transport, transport.slot, prefs
    modifies if callbacks == null then {} else {callbacks.bootloader}
    ensures ok ==> p != null && p.Valid() && p.PipelineInv() && transport.Linked() && p.transport == transport
    ensures ok && p.Persistent() && p.Setup() == c && Durability.AllLive(c, passed) ==>
              && Durability.IsRun(c, ss + passed, aa + aa', ee + ee')
              && |passed| == 1 + 2 * |times| && |ee'| == |passed| && ee'[0] == Durability.Boot
              && passed[2 * |times|] == p.View()
    ensures ok ==> p.replies == RepliesOf(turns) && transport.received == RequestsOf(turns) && p.config == config
    ensures ok && p.Persistent() && config.autoSaveMs < 0x8000_0000 ==> Timely(p.Setup(), config, turns)
  {
    hide Separate, Mapped, KeymapBytes, EncoderMapBytes, DefaultCore, Core, Durability.BootState, Protocol.View,
         Protocol.Setup, Protocol.Live, Protocol.PipelineInv, Mailbox.Run, Protocol.Persistent, Durability.Passed,
         Durability.Next, Durability.Sized;
    passed, aa', ee', turns := [], [], [], [];
    ok, p := StartOnNvs(prefs, config, transport, ram, custom, callbacks, nowMs);
    if !ok {
      return;
    }
    passed, turns := RunTasks(p, times);
    if p.Persistent() && p.Setup() == c && Durability.AllLive(c, passed) {
      aa', ee' := Durability.Continue(c, ss, aa, ee, passed);
    }
  }
}
