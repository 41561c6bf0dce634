/** Protocol state across power cuts: whatever commands, saves, factory resets and
    cuts a run contains, what a start-up restores. */
module Durability {
  import opened Bytes
  import opened Crc32
  import opened Options
  import opened Media
  import opened StateRecord
  import FileImage

  /** Storage size, payload size and how much of it is not custom state, the state of a
      start-up without a record, and the custom handler: what its reset makes of its bytes,
      whether it always saves, and its validation. */
  datatype Setup = Setup(capacity: uint32, size: nat, core: nat, defaults: Block, resets: Block -> Block, saves: bool,
                         accepts: Block -> bool) {
    ghost predicate Fits() {
      size < 0x1_0000 && STATE_HEADER + size <= capacity && core <= size == |defaults|
    }

    /** The built-in defaults are themselves acceptable. */
    ghost predicate Valid() {
      Fits() && Live(defaults)
    }

    /** Live states have the configured size, and the handler accepts what it saved itself. */
    predicate Live(payload: Block) {
      |payload| == size && accepts(payload)
    }
  }

  datatype System = System(medium: Medium, staged: Block, live: Block, dirty: bool)

  ghost predicate Sized(c: Setup, s: System) {
    c.Fits() && |s.live| == c.size && |s.staged| == c.capacity
  }

  /** What a load publishes from staged bytes. */
  function LoadFrom(c: Setup, staged: Block): Option<Block> {
    var p := Parse(staged, c.size);
    if p.Some? && c.accepts(p.value) then p else None
  }

  function LiveAfter(c: Setup, staged: Block): Block {
    var p := LoadFrom(c, staged);
    if p.Some? then p.value else c.defaults
  }

  /** The state after storage and protocol have started. */
  function BootState(c: Setup, m: Medium): System {
    System(Rebooted(m, c.capacity), Staged(m, c.capacity), LiveAfter(c, Staged(m, c.capacity)), false)
  }

  // ----- the protocol's steps

  /** A save: nothing happened, or the record of the live state was staged and a commit tried. */
  ghost predicate SaveEffect(c: Setup, s: System, s': System, ok: bool)
    requires Sized(c, s)
  {
    || (!ok && s' == s)
    || (s' == System(s'.medium, Splice(s.staged, 0, RecordOf(s.live)), s.live, if ok then false else s.dirty)
        && CommitEffect(s.medium, s'.staged, s'.medium, ok))
  }

  /** How far a factory reset came: its payload was not acceptable, or storage was erased,
      with `gone` removed and `mid` left on the medium. */
  datatype Progress = Rejected | Erased(gone: Removals, mid: Medium)

  /** What a reset of `live` may store: the defaults, and behind them what the handler's
      reset makes of its bytes, or zeros if it refuses to save that. */
  predicate IsFactory(c: Setup, live: Block, factory: Block)
    requires c.core <= c.size == |c.defaults| == |live|
  {
    && |factory| == c.size && factory[..c.core] == c.defaults[..c.core]
    && (factory[c.core..] == Rewritten(c.resets, live[c.core..])
        || (!c.saves && factory[c.core..] == Fill(c.size - c.core, 0)))
  }

  /** The handler's reset leaves the custom state of `live` as it is. */
  predicate KeepsCustom(c: Setup, live: Block)
    requires c.core <= |live|
  {
    Rewritten(c.resets, live[c.core..]) == live[c.core..]
  }

  /** A failed reset has reset custom state and nothing else. */
  function Disturbed(c: Setup, live: Block): (r: Block)
    requires c.core <= |live|
    ensures |r| == |live|
    ensures r == live <==> KeepsCustom(c, live)
  {
    var r := live[..c.core] + Rewritten(c.resets, live[c.core..]);
    assert r[c.core..] == Rewritten(c.resets, live[c.core..]);
    assert KeepsCustom(c, live) ==> live == live[..c.core] + live[c.core..];
    r
  }

  /** A factory reset to `factory`: what is staged was validated before the erase. */
  ghost predicate ResetEffect(c: Setup, s: System, factory: Block, how: Progress, s': System, ok: bool)
    requires Sized(c, s)
  {
    && IsFactory(c, s.live, factory)
    && s'.dirty == (if ok then false else s.dirty)
    && s'.live == (if ok then factory else Disturbed(c, s.live))
    && match how
       case Rejected => !ok && s'.medium == s.medium && s'.staged == s.staged
       case Erased(gone, mid) =>
         && c.Live(factory) && EraseEffect(s.medium, s.staged, gone, mid)
         && s'.staged == Splice(Fill(c.capacity, Blank(mid)), 0, RecordOf(factory))
         && CommitEffect(mid, s'.staged, s'.medium, ok)
  }

  /** A command may put any acceptable state in place, and then the state is dirty. */
  ghost predicate EditEffect(s: System, s': System) {
    s'.medium == s.medium && s'.staged == s.staged
    && (s'.dirty || (s'.live == s.live && s'.dirty == s.dirty))
  }

  /** One step of the protocol, whatever it was asked. */
  ghost predicate Effect(c: Setup, s: System, s': System) {
    && Sized(c, s)
    && (|| EditEffect(s, s')
        || (exists ok :: SaveEffect(c, s, s', ok))
        || (exists factory, how, ok :: ResetEffect(c, s, factory, how, s', ok)))
  }

  // ----- what was saved

  /** Records on the medium, as whole staged images, and whether a failed reset may have
      changed live state or the medium without marking the state dirty. */
  datatype Abstract = Abstract(disk: FileImage.Abstract, drifted: bool)

  ghost predicate Faithful(c: Setup, raw: Option<Block>) {
    raw.Some? ==> |raw.value| == c.capacity && LoadFrom(c, raw.value).Some?
  }

  /** The state a stored image stands for, the defaults without one. */
  function Meaning(c: Setup, raw: Option<Block>): Block {
    if raw.Some? && LoadFrom(c, raw.value).Some? then LoadFrom(c, raw.value).value else c.defaults
  }

  /** The state of the last completed save, or the defaults. */
  function Settled(c: Setup, a: Abstract): Block {
    Meaning(c, a.disk.committed)
  }

  /** The image the next start-up finds. */
  function Recovered(c: Setup, m: Medium): Option<Block> {
    match m
    case FilesMedium(files, _, _) => FileImage.Found(files, c.capacity)
    case NvsMedium(blob) => blob
    case NoMedium => None
  }

  /** Stored bytes changed. */
  predicate Wrote(m: Medium, m': Medium) {
    if m.FilesMedium? && m'.FilesMedium? then m'.files != m.files else m' != m
  }

  datatype Event = Edit | Save(ok: bool) | Reset(factory: Block, how: Progress, ok: bool) | Boot

  /** What an erase leaves of what was saved. */
  function DiskErased(c: Setup, m: Medium, d: FileImage.Abstract, gone: Removals, mid: Medium): FileImage.Abstract {
    if m.FilesMedium? && mid.FilesMedium? then FileImage.Erased(m.files, c.capacity, d, gone.a, gone.b, mid.on)
    else d
  }

  /** What a start-up knows of the medium. */
  function DiskBooted(c: Setup, m: Medium): FileImage.Abstract {
    match m
    case FilesMedium(files, _, _) => FileImage.Booted(files, c.capacity)
    case _ => FileImage.Abstract(Recovered(c, m), None, None, 0, false)
  }

  ghost predicate Next(c: Setup, s: System, a: Abstract, e: Event, s': System, a': Abstract)
    requires c.Valid() && Sized(c, s)
  {
    match e
    case Edit => c.Live(s'.live) && EditEffect(s, s') && a' == a
    case Save(ok) =>
      SaveEffect(c, s, s', ok) &&
      a' == Abstract(FileImage.Attempted(a.disk, s'.staged, ok, Wrote(s.medium, s'.medium)), !ok && a.drifted)
    case Reset(factory, how, ok) =>
      c.Live(s'.live) && ResetEffect(c, s, factory, how, s', ok) &&
      (match how
       case Rejected => a' == a.(drifted := a.drifted || !KeepsCustom(c, s.live))
       case Erased(gone, mid) =>
         var d := DiskErased(c, s.medium, a.disk, gone, mid);
         a' == Abstract(FileImage.Attempted(d, s'.staged, ok, Wrote(mid, s'.medium)),
                        !ok && (a.drifted || !KeepsCustom(c, s.live) || s.medium.FilesMedium?)))
    case Boot => s' == BootState(c, s.medium) && a' == Abstract(DiskBooted(c, s.medium), false)
  }

  // ----- the invariant of all runs

  /** Every whole record on the medium is one that loads. */
  ghost predicate WholeLoads(c: Setup, f: FileImage.File) {
    FileImage.ValidFile(f, c.capacity) ==> Faithful(c, Some(FileImage.FilePayload(f, c.capacity)))
  }

  ghost predicate OnMedium(c: Setup, s: System, d: FileImage.Abstract) {
    match s.medium
    case FilesMedium(files, gen, on) =>
      && FileImage.Inv(FileImage.FileStore(files, s.staged, gen, on), c.capacity, d)
      && WholeLoads(c, files.a) && WholeLoads(c, files.b)
    case NvsMedium(blob) => !d.refused && Faithful(c, blob)
        && (blob == d.committed || (d.inFlight.Some? && blob == d.inFlight))
    case NoMedium => true
  }

  ghost predicate Inv(c: Setup, s: System, a: Abstract) {
    && |s.staged| == c.capacity && c.Live(s.live)
    && (!s.dirty && !a.drifted ==> s.live == Settled(c, a))
    && Faithful(c, a.disk.committed) && Faithful(c, a.disk.inFlight) && Faithful(c, a.disk.previous)
    && OnMedium(c, s, a.disk)
  }

  lemma FillIsNoRecord(capacity: uint32, b: byte, size: nat)
    requires b == 0 || b == 0xFF
    ensures Parse(Fill(capacity, b), size) == None
  {
    if capacity >= STATE_HEADER + size {
      var s := Fill(capacity, b);
      assert s[0] == b && s[1] == b && s[2] == b && s[3] == b;
      assert NumberAt(s, 0) == 0 || NumberAt(s, 0) == 0xFFFF_FFFF;
    }
  }

  /** Contents that load stop loading when a burst of up to four payload bytes, or
      anything in the header alone, is damaged. */
  lemma DamagedNeverLoads(c: Setup, contents: Block, damaged: Block, at: nat)
    requires c.Fits() && LoadFrom(c, contents).Some? && |damaged| == |contents|
    requires var n, payload := STATE_HEADER + c.size, LoadFrom(c, contents).value;
             || (damaged[..STATE_HEADER] == contents[..STATE_HEADER] && Burst(payload, damaged[STATE_HEADER..n], at))
             || (damaged[..STATE_HEADER] != contents[..STATE_HEADER] && damaged[STATE_HEADER..n] == payload)
    ensures LoadFrom(c, damaged) == None
  {
    hide Burst, HeaderAccepts, Checksum;
    DamageRejected(contents, LoadFrom(c, contents).value, damaged, at);
  }

  /** What is staged for a save is what a later load publishes. */
  lemma SavedFaithful(c: Setup, before: Block, payload: Block)
    requires c.Fits() && |before| == c.capacity && c.Live(payload)
    ensures LoadFrom(c, Splice(before, 0, RecordOf(payload))) == Some(payload)
  {
    hide RecordOf, Parse;
    RoundTrip(before, payload);
  }

  /** What the next start-up puts in place is the meaning of the image it finds. */
  lemma BootMeans(c: Setup, s: System, a: Abstract)
    requires c.Valid() && Inv(c, s, a) && !s.medium.NoMedium?
    ensures BootState(c, s.medium).live == Meaning(c, Recovered(c, s.medium))
    ensures Faithful(c, Recovered(c, s.medium))
  {
    hide Parse, FileImage.Inv, FileImage.ValidFile, FileImage.Generation, FileImage.FilePayload;
    FillIsNoRecord(c.capacity, 0, c.size);
    FillIsNoRecord(c.capacity, 0xFF, c.size);
  }

  /** A start-up restores the last completed save, or the attempt since exactly when its
      record is whole on the medium. After an erase that was refused a removal and one save
      since, it restores that save unless file B kept a record that is not older. */
  lemma BootRestores(c: Setup, s: System, a: Abstract)
    requires c.Valid() && Inv(c, s, a) && !s.medium.NoMedium?
    ensures s.medium.FilesMedium? && !a.disk.refused ==>
              Recovered(c, s.medium)
              == if FileImage.Flew(s.medium.files, c.capacity, a.disk) then a.disk.inFlight else a.disk.committed
    ensures s.medium.FilesMedium? && a.disk.refused && a.disk.gen == 1 ==>
              Recovered(c, s.medium)
              == if FileImage.StaleRules(s.medium.files, c.capacity)
                 then Some(FileImage.FilePayload(s.medium.files.b, c.capacity)) else a.disk.committed
    ensures s.medium.NvsMedium? ==>
              Recovered(c, s.medium) == a.disk.committed
              || (a.disk.inFlight.Some? && Recovered(c, s.medium) == a.disk.inFlight)
    ensures BootState(c, s.medium).live == Meaning(c, Recovered(c, s.medium))
  {
    hide FileImage.Inv, FileImage.Found, FileImage.Flew, FileImage.StaleRules, FileImage.ValidFile,
         FileImage.FilePayload, LoadFrom, Staged;
    BootMeans(c, s, a);
    if s.medium.FilesMedium? {
      var t := FileImage.FileStore(s.medium.files, s.staged, s.medium.gen, s.medium.on);
      if !a.disk.refused {
        FileImage.BootLoads(t, c.capacity, a.disk);
      } else if a.disk.gen == 1 {
        FileImage.RestartLoads(t, c.capacity, a.disk);
      }
    }
  }

  lemma BootKeeps(c: Setup, s: System, a: Abstract)
    requires c.Valid() && Inv(c, s, a) && !s.medium.NoMedium?
    ensures Inv(c, BootState(c, s.medium), Abstract(DiskBooted(c, s.medium), false))
  {
    hide Parse, FileImage.Ordered, FileImage.Homed, FileImage.ValidFile, FileImage.Generation, FileImage.FilePayload;
    BootMeans(c, s, a);
    if s.medium.FilesMedium? {
      FileImage.BootOrders(s.medium.files, c.capacity);
    }
  }

  /** A commit keeps what is on the medium accounted for. */
  lemma CommitKeeps(c: Setup, s: System, d: FileImage.Abstract, s': System, ok: bool)
    requires c.Valid() && |s.staged| == |s'.staged| == c.capacity && OnMedium(c, s, d)
    requires Faithful(c, d.committed) && Faithful(c, d.inFlight) && Faithful(c, d.previous)
    requires Faithful(c, Some(s'.staged)) && CommitEffect(s.medium, s'.staged, s'.medium, ok)
    ensures var d' := FileImage.Attempted(d, s'.staged, ok, Wrote(s.medium, s'.medium));
            OnMedium(c, s', d') && Faithful(c, d'.committed) && Faithful(c, d'.inFlight) && Faithful(c, d'.previous)
  {
    hide LoadFrom, FileImage.Ordered, FileImage.Homed, FileImage.ValidFile, FileImage.FilePayload, FileImage.CommitCall;
    if s.medium.FilesMedium? {
      var t := FileImage.FileStore(s.medium.files, s'.staged, s.medium.gen, s.medium.on);
      var t' := FileImage.FileStore(s'.medium.files, s'.staged, s'.medium.gen, s'.medium.on);
      InvWithStaged(s, t, c.capacity, d);
      FileImage.CommitKeeps(t, t', ok, c.capacity, d);
      CommitWhole(c, t, t', ok);
    }
  }

  lemma InvWithStaged(s: System, t: FileImage.FileStore, capacity: uint32, d: FileImage.Abstract)
    requires s.medium.FilesMedium? && t.files == s.medium.files && t.gen == s.medium.gen && t.on == s.medium.on
    requires FileImage.Inv(FileImage.FileStore(s.medium.files, s.staged, s.medium.gen, s.medium.on), capacity, d)
    ensures FileImage.Inv(t, capacity, d)
  {
    hide FileImage.Ordered, FileImage.Homed;
  }

  /** The only whole file a commit may add is the staged record. */
  lemma CommitWhole(c: Setup, t: FileImage.FileStore, t': FileImage.FileStore, ok: bool)
    requires |t.staging| == c.capacity && FileImage.CommitCall(t, t', ok) && Faithful(c, Some(t.staging))
    requires WholeLoads(c, t.files.a) && WholeLoads(c, t.files.b)
    ensures WholeLoads(c, t'.files.a) && WholeLoads(c, t'.files.b)
  {
    hide LoadFrom, FileImage.ValidFile, FileImage.FilePayload, FileImage.FileRecord, FileImage.Leaves;
    var next := Succ(t.gen);
    FileImage.RecordValid(next, t.staging);
    FileImage.OnlyWholeRecords(t.files.Get(FileImage.HomeOf(next)), next, t.staging,
        t'.files.Get(FileImage.HomeOf(next)));
  }

  /** An erase keeps what is on the medium accounted for. */
  lemma EraseKeeps(c: Setup, s: System, d: FileImage.Abstract, gone: Removals, mid: Medium)
    requires c.Valid() && |s.staged| == c.capacity && OnMedium(c, s, d)
    requires Faithful(c, d.committed) && Faithful(c, d.inFlight) && Faithful(c, d.previous)
    requires EraseEffect(s.medium, s.staged, gone, mid)
    ensures var d' := DiskErased(c, s.medium, d, gone, mid);
            && OnMedium(c, s.(medium := mid), d')
            && Faithful(c, d'.committed) && Faithful(c, d'.inFlight) && Faithful(c, d'.previous)
  {
    hide LoadFrom, FileImage.Ordered, FileImage.Homed, FileImage.ValidFile, FileImage.FilePayload, FileImage.EraseCall;
    if s.medium.FilesMedium? {
      var t := FileImage.FileStore(s.medium.files, s.staged, s.medium.gen, s.medium.on);
      var t' := FileImage.FileStore(mid.files, Fill(|s.staged|, 0), mid.gen, mid.on);
      FileImage.EraseKeeps(t, t', c.capacity, d, gone.a, gone.b);
      InvWithStaged(System(mid, t'.staging, s.live, s.dirty),
          FileImage.FileStore(mid.files, s.staged, mid.gen, mid.on), c.capacity, DiskErased(c, s.medium, d, gone, mid));
      ErasedFiles(t, t', gone.a, gone.b);
      FileImage.AbsentInvalid(c.capacity);
    }
  }

  lemma ErasedFiles(t: FileImage.FileStore, t': FileImage.FileStore, goneA: bool, goneB: bool)
    requires FileImage.EraseCall(t, t', goneA, goneB)
    ensures t'.files == FileImage.Without(t.files, goneA, goneB)
  {
  }

  lemma ResetKeeps(c: Setup, s: System, a: Abstract, factory: Block, how: Progress, ok: bool, s': System, a': Abstract)
    requires c.Valid() && Inv(c, s, a) && !s.medium.NoMedium? && Next(c, s, a, Reset(factory, how, ok), s', a')
    ensures Inv(c, s', a') && !s'.medium.NoMedium?
  {
    hide LoadFrom, RecordOf, EraseEffect, CommitEffect, IsFactory, OnMedium, FileImage.Erased;
    if how.Erased? {
      SavedFaithful(c, Fill(c.capacity, Blank(how.mid)), factory);
      EraseKeeps(c, s, a.disk, how.gone, how.mid);
      SameKind(s.medium, s.staged, how.gone, how.mid, s'.staged, s'.medium, ok);
      var t := s.(medium := how.mid);
      CommitKeeps(c, t, DiskErased(c, s.medium, a.disk, how.gone, how.mid), s', ok);
    } else {
      StagedSame(c, s, s', a.disk);
    }
  }

  lemma StagedSame(c: Setup, s: System, s': System, d: FileImage.Abstract)
    requires OnMedium(c, s, d) && s'.medium == s.medium && s'.staged == s.staged
    ensures OnMedium(c, s', d)
  {
    hide FileImage.Inv, WholeLoads, Faithful;
  }

  lemma SameKind(m: Medium, staged: Block, gone: Removals, mid: Medium, staged': Block, m': Medium, ok: bool)
    requires EraseEffect(m, staged, gone, mid) && CommitEffect(mid, staged', m', ok)
    ensures m'.FilesMedium? == mid.FilesMedium? == m.FilesMedium?
    ensures m'.NvsMedium? == mid.NvsMedium? == m.NvsMedium?
    ensures !m.FilesMedium? ==> mid == m
  {
    hide FileImage.EraseCall, FileImage.CommitCall;
  }

  lemma NextKeeps(c: Setup, s: System, a: Abstract, e: Event, s': System, a': Abstract)
    requires c.Valid() && Inv(c, s, a) && !s.medium.NoMedium? && Next(c, s, a, e, s', a')
    ensures Inv(c, s', a') && !s'.medium.NoMedium?
  {
    hide LoadFrom, RecordOf, CommitEffect, OnMedium, ResetEffect, BootState;
    match e
    case Edit => StagedSame(c, s, s', a.disk);
    case Save(ok) =>
      if s' != s || ok {
        SavedFaithful(c, s.staged, s.live);
        CommitKind(s.medium, s'.staged, s'.medium, ok);
        CommitKeeps(c, s, a.disk, s', ok);
      }
    case Reset(factory, how, ok) => ResetKeeps(c, s, a, factory, how, ok, s', a');
    case Boot =>
      BootKeeps(c, s, a);
      BootKind(c, s.medium);
  }

  lemma CommitKind(m: Medium, staged: Block, m': Medium, ok: bool)
    requires CommitEffect(m, staged, m', ok)
    ensures m'.NoMedium? == m.NoMedium?
  {
    hide FileImage.CommitCall;
  }

  lemma BootKind(c: Setup, m: Medium)
    ensures BootState(c, m).medium.NoMedium? == m.NoMedium?
  {
    hide LiveAfter, Staged;
  }

  /** Each step the protocol makes is a step of these runs, provided its handler accepts
      the state it is left in. */
  lemma EffectIsStep(c: Setup, s: System, a: Abstract, s': System) returns (e: Event, a': Abstract)
    requires c.Valid() && Effect(c, s, s') && c.Live(s'.live)
    ensures !e.Boot? && Next(c, s, a, e, s', a')
  {
    hide SaveEffect, ResetEffect;
    if EditEffect(s, s') {
      e, a' := Edit, a;
    } else if exists ok :: SaveEffect(c, s, s', ok) {
      var ok :| SaveEffect(c, s, s', ok);
      e := Save(ok);
      a' := Abstract(FileImage.Attempted(a.disk, s'.staged, ok, Wrote(s.medium, s'.medium)), !ok && a.drifted);
    } else {
      var factory, how, ok :| ResetEffect(c, s, factory, how, s', ok);
      e := Reset(factory, how, ok);
      match how
      case Rejected => a' := a.(drifted := a.drifted || !KeepsCustom(c, s.live));
      case Erased(gone, mid) =>
        var d := DiskErased(c, s.medium, a.disk, gone, mid);
        a' := Abstract(FileImage.Attempted(d, s'.staged, ok, Wrote(mid, s'.medium)),
                       !ok && (a.drifted || !KeepsCustom(c, s.live) || s.medium.FilesMedium?));
    }
  }

  // ----- factory resets that fail or are cut

  /** File B was not removed, and its record is not older than generation 1. */
  predicate KeptNewer(c: Setup, m: Medium, gone: Removals) {
    m.FilesMedium? && !gone.b && FileImage.ValidFile(m.files.b, c.capacity)
        && !Newer(1, FileImage.Generation(m.files.b))
  }

  /** A reset that reports success is what the next start-up restores, unless the medium
      refused to remove a file B that is not older than the new record. */
  lemma ResetIsDurable(c: Setup, s: System, factory: Block, gone: Removals, mid: Medium, s': System)
    requires Sized(c, s) && !s.medium.NoMedium?
    requires ResetEffect(c, s, factory, Erased(gone, mid), s', true)
    ensures if KeptNewer(c, s.medium, gone)
            then Recovered(c, s'.medium) == Some(FileImage.FilePayload(s.medium.files.b, c.capacity))
            else BootState(c, s'.medium).live == s'.live == factory && Recovered(c, s'.medium) == Some(s'.staged)
  {
    hide LoadFrom, RecordOf, FileImage.ValidFile, FileImage.Generation, FileImage.FilePayload, IsFactory,
         FileImage.FileRecord;
    SavedFaithful(c, Fill(c.capacity, Blank(mid)), factory);
    if s.medium.FilesMedium? {
      var t := FileImage.FileStore(s.medium.files, s.staged, s.medium.gen, s.medium.on);
      var u := FileImage.FileStore(mid.files, Fill(|s.staged|, 0), mid.gen, mid.on);
      var u' := FileImage.FileStore(s'.medium.files, s'.staged, s'.medium.gen, s'.medium.on);
      FileImage.ResetLoads(t, u, u', c.capacity, s'.staged, gone.a, gone.b);
    }
  }

  /** Exactly what a start-up restores after a factory reset on files that failed, by which
      files were removed, which was active and which are whole: with both removed the new
      record when its file is whole and the defaults when not; else the attempt before the
      reset while its whole file stays, the last save while the active file stays, the save
      before that while its whole file stays, and the defaults with none of them. */
  lemma CutResetRestores(c: Setup, s: System, a: Abstract, factory: Block, gone: Removals, mid: Medium, s': System,
      a': Abstract)
    requires c.Valid() && Inv(c, s, a) && s.medium.FilesMedium? && !a.disk.refused
    requires Next(c, s, a, Reset(factory, Erased(gone, mid), false), s', a')
    requires gone == Removals(true, true) || !mid.on
    ensures s'.medium.FilesMedium? && (s'.medium.on ==> gone == Removals(true, true))
    ensures var files, home := s.medium.files, FileImage.HomeOf(a.disk.gen);
            var other := files.Get(FileImage.OtherName(home));
            var activeStays := FileImage.Stays(home, gone.a, gone.b);
            var otherStays := FileImage.Stays(FileImage.OtherName(home), gone.a, gone.b);
            BootState(c, s'.medium).live
            == if gone == Removals(true, true) then
                 (if FileImage.ValidFile(s'.medium.files.a, c.capacity) then factory else c.defaults)
               else if otherStays && FileImage.Flew(files, c.capacity, a.disk) then Meaning(c, a.disk.inFlight)
               else if activeStays then Meaning(c, a.disk.committed)
               else if otherStays && FileImage.ValidFile(other, c.capacity) then Meaning(c, a.disk.previous)
               else c.defaults
  {
    hide LoadFrom, RecordOf, FileImage.Inv, FileImage.ValidFile, FileImage.Flew, FileImage.FilePayload, FileImage.Found,
         IsFactory, OnMedium, FileImage.Erased;
    NextKeeps(c, s, a, Reset(factory, Erased(gone, mid), false), s', a');
    BootMeans(c, s', a');
    CutResetFiles(c, s, factory, gone, mid, s');
    SavedFaithful(c, Fill(c.capacity, 0), factory);
    OrderedFiles(c, s, a.disk);
    if !(gone.a && gone.b) {
      FileImage.EraseRestores(FileImage.FileStore(s.medium.files, s.staged, s.medium.gen, s.medium.on), c.capacity,
          a.disk, gone.a, gone.b);
    }
  }

  lemma OrderedFiles(c: Setup, s: System, d: FileImage.Abstract)
    requires s.medium.FilesMedium? && OnMedium(c, s, d)
    ensures FileImage.Inv(FileImage.FileStore(s.medium.files, s.staged, s.medium.gen, s.medium.on), c.capacity, d)
  {
    hide FileImage.Inv, WholeLoads;
  }

  /** The files a failed reset leaves. */
  lemma CutResetFiles(c: Setup, s: System, factory: Block, gone: Removals, mid: Medium, s': System)
    requires Sized(c, s) && s.medium.FilesMedium? && ResetEffect(c, s, factory, Erased(gone, mid), s', false)
    requires gone == Removals(true, true) || !mid.on
    ensures s'.medium.FilesMedium? && (s'.medium.on ==> gone == Removals(true, true)) && |s'.staged| == c.capacity
    ensures if gone == Removals(true, true)
            then FileImage.Found(s'.medium.files, c.capacity)
                 == if FileImage.ValidFile(s'.medium.files.a, c.capacity) then Some(s'.staged) else None
            else s'.medium.files == FileImage.Without(s.medium.files, gone.a, gone.b)
  {
    hide RecordOf, FileImage.ValidFile, FileImage.Found, FileImage.Leaves, FileImage.FileRecord, IsFactory;
    if gone == Removals(true, true) {
      FileImage.FirstCommit(FileImage.FileStore(mid.files, s'.staged, mid.gen, mid.on),
                            FileImage.FileStore(s'.medium.files, s'.staged, s'.medium.gen, s'.medium.on), false);
    }
  }

  // ----- whole runs

  ghost predicate IsRun(c: Setup, ss: seq<System>, aa: seq<Abstract>, ee: seq<Event>) {
    && c.Valid() && |ss| == |aa| == |ee| + 1
    && (forall i :: 0 <= i < |ss| ==> Sized(c, ss[i]))
    && (forall i :: 0 <= i < |ee| ==> Next(c, ss[i], aa[i], ee[i], ss[i + 1], aa[i + 1]))
  }

  /** States of one power-up, each a protocol step after the one before. */
  ghost predicate Passed(c: Setup, ss: seq<System>) {
    |ss| > 0 && forall i :: 0 <= i < |ss| - 1 ==> Effect(c, ss[i], ss[i + 1])
  }

  predicate AllLive(c: Setup, ss: seq<System>) {
    forall s :: s in ss ==> c.Live(s.live)
  }

  lemma ExtendRun(c: Setup, ss: seq<System>, aa: seq<Abstract>, ee: seq<Event>, e: Event, s: System, a: Abstract)
    requires IsRun(c, ss, aa, ee) && Sized(c, s) && Next(c, ss[|ee|], aa[|ee|], e, s, a)
    ensures IsRun(c, ss + [s], aa + [a], ee + [e])
  {
    hide Next, Sized;
  }

  lemma EffectSized(c: Setup, s: System, s': System)
    requires Effect(c, s, s') && c.Live(s'.live)
    ensures Sized(c, s')
  {
    hide RecordOf, CommitEffect, EraseEffect, IsFactory;
  }

  lemma BootSized(c: Setup, m: Medium)
    requires c.Valid()
    ensures Sized(c, BootState(c, m))
  {
    hide Parse;
  }

  /** A run followed by a start-up on what it left, and then by the states passed until the
      next one, is a run: the theorems below are about power-up after power-up. */
  lemma {:induction false} Continue(c: Setup, ss: seq<System>, aa: seq<Abstract>, ee: seq<Event>, more: seq<System>)
    returns (aa': seq<Abstract>, ee': seq<Event>)
    requires IsRun(c, ss, aa, ee) && Passed(c, more) && AllLive(c, more)
    requires more[0] == BootState(c, ss[|ee|].medium)
    ensures |aa'| == |ee'| == |more| && ee'[0] == Boot
    ensures IsRun(c, ss + more, aa + aa', ee + ee')
  {
    hide Next, BootState, Effect, Sized;
    if |more| == 1 {
      BootIsNext(c, ss[|ee|], aa[|ee|]);
      BootSized(c, ss[|ee|].medium);
      aa', ee' := [Abstract(DiskBooted(c, ss[|ee|].medium), false)], [Boot];
      ExtendRun(c, ss, aa, ee, Boot, more[0], aa'[0]);
      assert more == [more[0]];
    } else {
      var n := |more| - 1;
      aa', ee' := Continue(c, ss, aa, ee, more[..n]);
      var e, a := EffectIsStep(c, more[n - 1], aa'[n - 1], more[n]);
      EffectSized(c, more[n - 1], more[n]);
      ExtendRun(c, ss + more[..n], aa + aa', ee + ee', e, more[n], a);
      assert ss + more == ss + more[..n] + [more[n]];
      assert aa + aa' + [a] == aa + (aa' + [a]) && ee + ee' + [e] == ee + (ee' + [e]);
      aa', ee' := aa' + [a], ee' + [e];
    }
  }

  /** A start-up looks at the files alone. */
  lemma SameBoot(c: Setup, m: Medium, files: FileImage.Files)
    requires m.FilesMedium? && m.files == files
    ensures BootState(c, m) == BootState(c, FilesMedium(files, 0, true))
  {
  }

  lemma BootIsNext(c: Setup, s: System, a: Abstract)
    requires c.Valid() && Sized(c, s)
    ensures Next(c, s, a, Boot, BootState(c, s.medium), Abstract(DiskBooted(c, s.medium), false))
  {
  }

  /** The first start-up on an empty medium. */
  ghost predicate FirstBoot(c: Setup, s: System, a: Abstract) {
    && a == Abstract(FileImage.NOTHING, false)
    && (s == BootState(c, FilesMedium(FileImage.Files(FileImage.Absent, FileImage.Absent), 0, true))
        || s == BootState(c, NvsMedium(None)))
  }

  lemma FirstBootInv(c: Setup, s: System, a: Abstract)
    requires c.Valid() && FirstBoot(c, s, a)
    ensures Inv(c, s, a) && !s.medium.NoMedium? && s.live == c.defaults
  {
    hide Parse, FileImage.ValidFile;
    FillIsNoRecord(c.capacity, 0, c.size);
    FillIsNoRecord(c.capacity, 0xFF, c.size);
    FileImage.EmptyInv(c.capacity);
    FileImage.AbsentInvalid(c.capacity);
  }

  lemma {:induction false} RunInv(c: Setup, ss: seq<System>, aa: seq<Abstract>, ee: seq<Event>)
    requires IsRun(c, ss, aa, ee) && FirstBoot(c, ss[0], aa[0])
    ensures Inv(c, ss[|ee|], aa[|ee|]) && !ss[|ee|].medium.NoMedium?
  {
    hide Inv, Next, FirstBoot;
    if |ee| == 0 {
      FirstBootInv(c, ss[0], aa[0]);
    } else {
      var n := |ee| - 1;
      RunInv(c, ss[..n + 1], aa[..n + 1], ee[..n]);
      NextKeeps(c, ss[n], aa[n], ee[n], ss[n + 1], aa[n + 1]);
    }
  }

  /** What a start-up puts in place after a run: the state of the last completed save, or of
      the save or reset attempted since if its record is whole. Between the first and the
      second save after a refused removal it is that first save, unless file B kept a record
      that is not older. */
  predicate Restores(c: Setup, m: Medium, d: FileImage.Abstract) {
    var live := BootState(c, m).live;
    match m
    case FilesMedium(files, _, _) =>
      && (!d.refused ==>
            live == Meaning(c, if FileImage.Flew(files, c.capacity, d) then d.inFlight else d.committed))
      && (d.refused && d.gen == 1 ==>
            live == Meaning(c, if FileImage.StaleRules(files, c.capacity)
                               then Some(FileImage.FilePayload(files.b, c.capacity)) else d.committed))
    case _ => live == Meaning(c, d.committed) || (d.inFlight.Some? && live == Meaning(c, d.inFlight))
  }

  /** End-to-end durability of every run of edits, saves, factory resets and power cuts on
      files or NVS, from an empty medium: the next start-up is as said above. And state that
      is not dirty is what was saved, unless a reset failed since after it had changed
      custom state or removed files. */
  lemma DurableState(c: Setup, ss: seq<System>, aa: seq<Abstract>, ee: seq<Event>)
    requires IsRun(c, ss, aa, ee) && FirstBoot(c, ss[0], aa[0])
    ensures Restores(c, ss[|ee|].medium, aa[|ee|].disk)
    ensures var s, a := ss[|ee|], aa[|ee|];
            !s.dirty && !a.drifted ==> s.live == Settled(c, a)
  {
    hide Next, FirstBoot, BootState, Recovered, Faithful, FileImage.Inv, FileImage.Flew, FileImage.StaleRules,
         FileImage.ValidFile, FileImage.FilePayload, LoadFrom, OnMedium;
    RunInv(c, ss, aa, ee);
    KindOfMedium(ss[|ee|].medium);
    BootRestores(c, ss[|ee|], aa[|ee|]);
  }

  /** How many successful saves the run ends with since the last erase, that of a factory
      reset included. */
  function SavesSinceErase(ee: seq<Event>): (n: nat) {
    if ee == [] then 0
    else
      var e, before := ee[|ee| - 1], SavesSinceErase(ee[..|ee| - 1]);
      match e
      case Save(ok) => before + if ok then 1 else 0
      case Reset(_, Erased(_, _), ok) => if ok then 1 else 0
      case _ => before
  }

  /** A removal that was refused matters no longer after the second successful save. */
  lemma {:induction false} RefusalEnds(c: Setup, ss: seq<System>, aa: seq<Abstract>, ee: seq<Event>)
    requires IsRun(c, ss, aa, ee) && FirstBoot(c, ss[0], aa[0])
    ensures aa[|ee|].disk.refused ==> SavesSinceErase(ee) <= aa[|ee|].disk.gen <= 1
  {
    hide FirstBoot, BootState, Recovered, LoadFrom, OnMedium, SaveEffect, ResetEffect, Inv, FileImage.Found,
         FileImage.BeginResult, FileImage.Spare, FileImage.Flew, FileImage.ValidFile, FileImage.Generation,
         FileImage.FilePayload;
    if |ee| == 0 {
      FirstClean(c, ss[0], aa[0]);
    } else {
      var n := |ee| - 1;
      RefusalEnds(c, ss[..n + 1], aa[..n + 1], ee[..n]);
      assert Next(c, ss[n], aa[n], ee[n], ss[n + 1], aa[n + 1]);
    }
  }

  lemma KindOfMedium(m: Medium)
    ensures m.FilesMedium? || m.NvsMedium? || m.NoMedium?
  {
  }

  /** The last save or reset that reported success is what counts as saved: later edits,
      failed saves and failed resets that erased no file never displace it. */
  lemma {:induction false} SavedIsLastSuccess(c: Setup, ss: seq<System>, aa: seq<Abstract>, ee: seq<Event>, k: nat)
    requires IsRun(c, ss, aa, ee) && FirstBoot(c, ss[0], aa[0])
    requires k < |ee| && (ee[k].Save? || ee[k].Reset?) && ee[k].ok
    requires forall i :: k < i < |ee| ==> Harmless(ss[i], ee[i])
    ensures Settled(c, aa[|ee|]) == ss[k + 1].live
  {
    hide LoadFrom, FirstBoot, BootState, FileImage.Erased, RecordOf, CommitEffect, EraseEffect, Harmless, IsFactory,
         OnMedium;
    var n := |ee| - 1;
    RunInv(c, ss[..n + 1], aa[..n + 1], ee[..n]);
    assert Next(c, ss[n], aa[n], ee[n], ss[n + 1], aa[n + 1]);
    if k < n {
      SavedIsLastSuccess(c, ss[..n + 1], aa[..n + 1], ee[..n], k);
      HarmlessKeeps(c, ss[n], aa[n], ee[n], ss[n + 1], aa[n + 1]);
    } else if ee[n].Save? {
      SavedFaithful(c, ss[n].staged, ss[n].live);
    } else {
      SavedFaithful(c, Fill(c.capacity, Blank(ee[n].how.mid)), ee[n].factory);
    }
  }

  /** Edits, failed saves, and failed resets that erased no file. */
  predicate Harmless(s: System, e: Event) {
    e.Edit? || e == Save(false) || (e.Reset? && !e.ok && (e.how.Rejected? || !s.medium.FilesMedium?))
  }

  lemma HarmlessKeeps(c: Setup, s: System, a: Abstract, e: Event, s': System, a': Abstract)
    requires c.Valid() && Sized(c, s) && Next(c, s, a, e, s', a') && Harmless(s, e)
    ensures a'.disk.committed == a.disk.committed
  {
    hide SaveEffect, ResetEffect, LoadFrom;
  }

  // ----- a failed reset that loses custom state

  /** The settled, clean state is kept by a reset that fails before it touches files if and
      only if the handler's reset leaves custom state as it is. */
  lemma FailedResetDrifts(c: Setup, s: System, a: Abstract, factory: Block, how: Progress, s': System, a': Abstract)
    requires c.Valid() && Sized(c, s) && Next(c, s, a, Reset(factory, how, false), s', a')
    requires how.Rejected? || !s.medium.FilesMedium?
    requires !s.dirty && s.live == Settled(c, a)
    ensures !s'.dirty && (s'.live == Settled(c, a') <==> KeepsCustom(c, s.live))
  {
    hide LoadFrom, RecordOf, CommitEffect, EraseEffect, IsFactory;
  }

  /** One input where it does not: a saved state with custom byte 7, a handler that resets to
      0, and a reset whose commit is refused. The state is changed and counts as clean, and
      the next start-up brings the saved one back. */
  lemma FailedResetExample(accepts: Block -> bool)
    requires accepts([1, 2, 3, 4, 0]) && accepts([1, 2, 3, 4, 7])
    ensures var c := Setup(32, 5, 4, [1, 2, 3, 4, 0], b => Fill(|b|, 0), true, accepts);
            var saved := Splice(Fill(32, 0xFF), 0, RecordOf([1, 2, 3, 4, 7]));
            var reset := Splice(Fill(32, 0xFF), 0, RecordOf([1, 2, 3, 4, 0]));
            var s := System(NvsMedium(Some(saved)), saved, [1, 2, 3, 4, 7], false);
            var s' := System(NvsMedium(Some(saved)), reset, [1, 2, 3, 4, 0], false);
            && c.Valid() && s == BootState(c, s.medium)
            && ResetEffect(c, s, [1, 2, 3, 4, 0], Erased(Removals(false, false), s.medium), s', false)
            && !s'.dirty && s'.live != s.live && BootState(c, s'.medium).live == s.live
  {
    hide RecordOf, LoadFrom, Splice;
    var c := Setup(32, 5, 4, [1, 2, 3, 4, 0], b => Fill(|b|, 0), true, accepts);
    SavedFaithful(c, Fill(32, 0xFF), [1, 2, 3, 4, 7]);
  }

  /** Handlers without a reset of their own: a successful reset restores everything but
      custom state, and a failed one changes nothing. */
  lemma KeeperReset(c: Setup, s: System, factory: Block, how: Progress, s': System, ok: bool)
    requires Sized(c, s) && |c.defaults| == c.size && ResetEffect(c, s, factory, how, s', ok)
    requires KeepsCustom(c, s.live)
    ensures !ok ==> s'.live == s.live && s'.dirty == s.dirty
    ensures ok && c.saves ==> s'.live == c.defaults[..c.core] + s.live[c.core..]
  {
    hide RecordOf, CommitEffect, EraseEffect;
    assert factory == factory[..c.core] + factory[c.core..];
  }

  /** With such a handler no run of any kind drifts, except by a reset that fails after
      files were removed: state that is not dirty is always what was saved. */
  lemma {:induction false} KeepersNeverDrift(c: Setup, ss: seq<System>, aa: seq<Abstract>, ee: seq<Event>)
    requires IsRun(c, ss, aa, ee) && FirstBoot(c, ss[0], aa[0])
    requires forall b: Block :: Rewritten(c.resets, b) == b
    requires forall i :: 0 <= i < |ee| && ee[i].Reset? && !ee[i].ok ==>
               ee[i].how.Rejected? || !ss[i].medium.FilesMedium?
    ensures !aa[|ee|].drifted
    ensures !ss[|ee|].dirty ==> ss[|ee|].live == Settled(c, aa[|ee|])
  {
    hide SaveEffect, ResetEffect, LoadFrom, FirstBoot, FileImage.Erased, FileImage.Attempted, FileImage.Booted,
         OnMedium;
    RunInv(c, ss, aa, ee);
    if |ee| == 0 {
      FirstClean(c, ss[0], aa[0]);
    } else {
      var n := |ee| - 1;
      KeepersNeverDrift(c, ss[..n + 1], aa[..n + 1], ee[..n]);
      assert Next(c, ss[n], aa[n], ee[n], ss[n + 1], aa[n + 1]);
    }
  }

  lemma FirstClean(c: Setup, s: System, a: Abstract)
    requires FirstBoot(c, s, a)
    ensures !a.drifted && !a.disk.refused
  {
  }
}
