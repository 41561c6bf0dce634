/** The two-file record store of the nRF52 adapter as a state machine: which file a
    start-up loads and what every commit, interrupted commit and power cut keeps. */
module FileImage {
  import opened Bytes
  import opened Crc32
  import opened Options

  const FILE_MAGIC: uint32 := 0x56494146
  const HEADER_SIZE: nat := 16

  datatype File = Absent | Present(data: Block)
  datatype Name = FileA | FileB
  datatype Files = Files(a: File, b: File) {
    function Get(name: Name): File {
      if name == FileA then a else b
    }
    function Put(name: Name, f: File): Files {
      if name == FileA then this.(a := f) else this.(b := f)
    }
  }

  function OtherName(name: Name): Name {
    if name == FileA then FileB else FileA
  }

  /** Odd generations live in file A, even ones in file B. */
  function HomeOf(gen: uint32): Name {
    if gen % 2 == 1 then FileA else FileB
  }

  function Header(gen: uint32, staging: Block): (r: Block)
    requires |staging| < WORD_LIMIT
    ensures |r| == HEADER_SIZE
  {
    NumberBytes(FILE_MAGIC) + NumberBytes(gen) + NumberBytes(|staging|) + WordBytes(RawChecksum(staging))
  }

  function FileRecord(gen: uint32, staging: Block): Block
    requires |staging| < WORD_LIMIT
  {
    Header(gen, staging) + staging
  }

  /** A file is accepted when its header names this capacity and the checksum of
      that many payload bytes matches. */
  predicate ValidFile(f: File, capacity: uint32) {
    && f.Present? && |f.data| >= HEADER_SIZE + capacity
    && NumberAt(f.data, 0) == FILE_MAGIC && NumberAt(f.data, 8) == capacity
    && WordAt(f.data, 12) == RawChecksum(FilePayload(f, capacity))
  }

  function FilePayload(f: File, capacity: uint32): (r: Block)
    requires f.Present? && |f.data| >= HEADER_SIZE + capacity
    ensures |r| == capacity
  {
    f.data[HEADER_SIZE..HEADER_SIZE + capacity]
  }

  function Generation(f: File): uint32
    requires f.Present? && |f.data| >= HEADER_SIZE
  {
    NumberAt(f.data, 4)
  }

  lemma HeaderFields(gen: uint32, staging: Block, data: Block)
    requires |staging| < WORD_LIMIT && |data| >= HEADER_SIZE && data[..HEADER_SIZE] == Header(gen, staging)
    ensures NumberAt(data, 0) == FILE_MAGIC && NumberAt(data, 4) == gen
    ensures NumberAt(data, 8) == |staging| && WordAt(data, 12) == RawChecksum(staging)
  {
    hide NumberAt, WordAt, NumberBytes, WordBytes, RawChecksum;
    var r := Header(gen, staging);
    assert data[0..4] == r[0..4] == NumberBytes(FILE_MAGIC);
    assert data[4..8] == r[4..8] == NumberBytes(gen);
    assert data[8..12] == r[8..12] == NumberBytes(|staging|);
    assert data[12..16] == r[12..16] == WordBytes(RawChecksum(staging));
    NumberMoves(NumberBytes(FILE_MAGIC), data, 0);
    NumberMoves(NumberBytes(gen), data, 4);
    NumberMoves(NumberBytes(|staging|), data, 8);
    WordMoves(WordBytes(RawChecksum(staging)), data, 12);
  }

  /** A file byte by byte: "FAIV" in memory order, generation, length and register, lowest
      bytes first, and the payload. */
  lemma FileBytes(gen: uint32, staging: Block)
    requires |staging| < WORD_LIMIT
    ensures var r := FileRecord(gen, staging);
            && |r| == 16 + |staging| && r[16..] == staging
            && r[..4] == [0x46, 0x41, 0x49, 0x56]
            && gen == r[4] as nat + 0x100 * (r[5] as nat) + 0x1_0000 * (r[6] as nat) + 0x100_0000 * (r[7] as nat)
            && |staging|
               == r[8] as nat + 0x100 * (r[9] as nat) + 0x1_0000 * (r[10] as nat) + 0x100_0000 * (r[11] as nat)
            && RawChecksum(staging)
               == (r[12] as bv32) | ((r[13] as bv32) << 8) | ((r[14] as bv32) << 16) | ((r[15] as bv32) << 24)
  {
    hide NumberBytes, NumberAt, WordAt, WordBytes, RawChecksum;
    var r := FileRecord(gen, staging);
    FileMagic();
    assert r[..HEADER_SIZE] == Header(gen, staging);
    HeaderFields(gen, staging, r);
    assert r[..4] == NumberBytes(FILE_MAGIC);
    NumberIs(r, 4);
    NumberIs(r, 8);
    WordIs(r, 12);
  }

  lemma FileMagic()
    ensures NumberBytes(FILE_MAGIC) == [0x46, 0x41, 0x49, 0x56]
  {
    hide NumberBytes;
    NumberUnique([0x46, 0x41, 0x49, 0x56], 0);
  }

  // ----- what an interrupted or faulty commit leaves

  /** The payload of the written file was damaged inside four consecutive bytes. */
  ghost predicate Damaged(record: Block, data: Block) {
    && |data| == |record| >= HEADER_SIZE && data[..HEADER_SIZE] == record[..HEADER_SIZE]
    && exists at :: Burst(record[HEADER_SIZE..], data[HEADER_SIZE..], at)
  }

  /** The file as it was, the whole record, the damaged record, or anything shorter,
      such as a prefix of the record. */
  ghost predicate Leaves(before: File, record: Block, after: File) {
    || after == before
    || (after.Present? && (|after.data| < |record| || after.data == record))
    || (after.Present? && Damaged(record, after.data))
  }

  lemma RecordValid(gen: uint32, staging: Block)
    requires |staging| < WORD_LIMIT
    ensures var f := Present(FileRecord(gen, staging));
            ValidFile(f, |staging|) && Generation(f) == gen && FilePayload(f, |staging|) == staging
  {
    hide NumberAt, WordAt, Header, RawChecksum;
    var data := FileRecord(gen, staging);
    assert data[..HEADER_SIZE] == Header(gen, staging);
    assert data[HEADER_SIZE..HEADER_SIZE + |staging|] == staging;
    HeaderFields(gen, staging, data);
  }

  /** Nothing but the whole record is accepted: any shorter file fails the length check,
      and damage inside four bytes changes the checksum. */
  lemma OnlyWholeRecords(before: File, gen: uint32, staging: Block, after: File)
    requires |staging| < WORD_LIMIT && Leaves(before, FileRecord(gen, staging), after)
    ensures after == before || after == Present(FileRecord(gen, staging)) || !ValidFile(after, |staging|)
  {
    hide NumberAt, WordAt, Header, Run, Burst;
    var record := FileRecord(gen, staging);
    assert record[HEADER_SIZE..] == staging;
    if after != before && after.Present? && Damaged(record, after.data) {
      var at :| Burst(record[HEADER_SIZE..], after.data[HEADER_SIZE..], at);
      BurstDetected(ONES, record[HEADER_SIZE..], after.data[HEADER_SIZE..], at);
      assert record[..HEADER_SIZE] == Header(gen, staging);
      HeaderFields(gen, staging, after.data);
      assert FilePayload(after, |staging|) == after.data[HEADER_SIZE..];
    }
  }

  // ----- the store

  /** Medium, staging buffer and generation of a started adapter, and whether there is power. */
  datatype FileStore = FileStore(files: Files, staging: Block, gen: uint32, on: bool)

  /** What a start-up loads: the newer of two valid files, the valid one, or zeros. */
  function BeginResult(files: Files, capacity: uint32): (r: FileStore)
    ensures r.files == files && |r.staging| == capacity && r.on
  {
    var a, b := ValidFile(files.a, capacity), ValidFile(files.b, capacity);
    if a && (b ==> Newer(Generation(files.a), Generation(files.b))) then
      FileStore(files, FilePayload(files.a, capacity), Generation(files.a), true)
    else if b then
      FileStore(files, FilePayload(files.b, capacity), Generation(files.b), true)
    else FileStore(files, Fill(capacity, 0), 0, true)
  }

  /** A commit writes the next generation to the file the active one is not in, and
      reports success only for the whole record. Without power it does nothing. */
  ghost predicate CommitCall(s: FileStore, s': FileStore, ok: bool)
    requires |s.staging| < WORD_LIMIT
  {
    var next := Succ(s.gen);
    var record := FileRecord(next, s.staging);
    && s' == FileStore(s'.files, s.staging, if ok then next else s.gen, s'.on)
    && s'.files.Get(OtherName(HomeOf(next))) == s.files.Get(OtherName(HomeOf(next)))
    && Leaves(s.files.Get(HomeOf(next)), record, s'.files.Get(HomeOf(next)))
    && (ok ==> s'.files.Get(HomeOf(next)) == Present(record))
    && (!s.on ==> !ok && s' == s)
    && (ok ==> s'.on)
  }

  function Without(files: Files, goneA: bool, goneB: bool): Files {
    Files(if goneA then Absent else files.a, if goneB then Absent else files.b)
  }

  /** An erase forgets staging and generation and tries to remove both files; whether they
      went is not looked at. */
  ghost predicate EraseCall(s: FileStore, s': FileStore, goneA: bool, goneB: bool) {
    && s' == FileStore(Without(s.files, goneA, goneB), Fill(|s.staging|, 0), 0, s'.on)
    && (!s.on ==> !goneA && !goneB && !s'.on)
  }

  /** On a medium that fails only by losing power file B goes after file A, and there is
      power left only when both are gone. */
  predicate InOrder(s': FileStore, goneA: bool, goneB: bool) {
    (goneB ==> goneA) && (s'.on ==> goneB)
  }

  // ----- what is on the medium

  /** The record of the last successful commit, that of a failed or interrupted one since,
      the record before the last, and the last generation. `refused` says that an erase
      left a file behind although there was power; then generations start again, and
      neither a start-up nor a second successful commit has followed. */
  datatype Abstract = Abstract(committed: Option<Block>, inFlight: Option<Block>, previous: Option<Block>,
                               gen: uint32, refused: bool)

  const NOTHING: Abstract := Abstract(None, None, None, 0, false)

  /** Valid records are in their home files. */
  predicate Homed(files: Files, capacity: uint32) {
    && (ValidFile(files.a, capacity) ==> HomeOf(Generation(files.a)) == FileA)
    && (ValidFile(files.b, capacity) ==> HomeOf(Generation(files.b)) == FileB)
  }

  /** The active file is intact in its home, and the other file is invalid, an older
      record, or the whole record in flight. */
  predicate Ordered(files: Files, capacity: uint32, a: Abstract) {
    var active, other := files.Get(HomeOf(a.gen)), files.Get(HomeOf(Succ(a.gen)));
    && (if a.committed.Some?
        then ValidFile(active, capacity) && Generation(active) == a.gen
            && Some(FilePayload(active, capacity)) == a.committed
        else a.gen == 0 && !ValidFile(active, capacity))
    && (ValidFile(other, capacity) ==>
          || (a.committed.Some? && Newer(a.gen, Generation(other)) && Some(FilePayload(other, capacity)) == a.previous)
          || (Generation(other) == Succ(a.gen) && Some(FilePayload(other, capacity)) == a.inFlight))
  }

  /** After a refused erase: nothing committed yet, or one whole record in file A. */
  predicate Restarted(files: Files, capacity: uint32, a: Abstract) {
    && a.gen <= 1
    && (a.gen == 1 ==> ValidFile(files.a, capacity) && Generation(files.a) == 1
                       && Some(FilePayload(files.a, capacity)) == a.committed)
  }

  predicate Inv(s: FileStore, capacity: uint32, a: Abstract) {
    && Homed(s.files, capacity) && (s.on ==> s.gen == a.gen)
    && if a.refused then Restarted(s.files, capacity, a) else Ordered(s.files, capacity, a)
  }

  lemma Homes(gen: uint32)
    ensures HomeOf(Succ(gen)) == OtherName(HomeOf(gen)) && HomeOf(Succ(Succ(gen))) == HomeOf(gen)
    ensures HomeOf(Pred(gen)) == HomeOf(Succ(gen))
  {
  }

  /** The record a start-up finds. */
  function Found(files: Files, capacity: uint32): Option<Block> {
    if ValidFile(files.a, capacity) || ValidFile(files.b, capacity) then Some(BeginResult(files, capacity).staging)
    else None
  }

  /** The other whole record, if there is one. */
  function Spare(files: Files, capacity: uint32): Option<Block> {
    var other := files.Get(HomeOf(Succ(BeginResult(files, capacity).gen)));
    if ValidFile(other, capacity) then Some(FilePayload(other, capacity)) else None
  }

  /** What a start-up knows of the medium. */
  function Booted(files: Files, capacity: uint32): Abstract {
    Abstract(Found(files, capacity), None, Spare(files, capacity), BeginResult(files, capacity).gen, false)
  }

  /** The other file holds the whole record in flight. */
  predicate Flew(files: Files, capacity: uint32, a: Abstract) {
    var other := files.Get(HomeOf(Succ(a.gen)));
    ValidFile(other, capacity) && Generation(other) == Succ(a.gen)
  }

  /** A start-up loads the last committed record, or the one in flight exactly when
      its file is whole. */
  lemma BootLoads(s: FileStore, capacity: uint32, a: Abstract)
    requires Inv(s, capacity, a) && !a.refused
    ensures Found(s.files, capacity) == if Flew(s.files, capacity, a) then a.inFlight else a.committed
    ensures Found(s.files, capacity) == None ==> BeginResult(s.files, capacity).staging == Fill(capacity, 0)
  {
    hide NumberAt, ValidFile, Generation, FilePayload, Newer, Succ, Pred, Fill;
    SerialOrder(a.gen);
    Homes(a.gen);
    OneNewer(Generation0(s.files.a, capacity), Generation0(s.files.b, capacity));
  }

  /** A file's generation, and 0 where there is no valid one. */
  function Generation0(f: File, capacity: uint32): uint32 {
    if ValidFile(f, capacity) then Generation(f) else 0
  }

  lemma OneNewer(a: uint32, b: uint32)
    ensures !(Newer(a, b) && Newer(b, a))
    ensures HomeOf(a) != HomeOf(b) ==> Newer(a, b) || Newer(b, a)
  {
  }

  /** After a start-up the medium is in order, however it was left. */
  lemma BootOrders(files: Files, capacity: uint32)
    requires Homed(files, capacity)
    ensures Inv(BeginResult(files, capacity), capacity, Booted(files, capacity))
  {
    hide NumberAt, ValidFile, Generation, FilePayload, Newer, Succ, Pred, Fill, HomeOf;
    Homes(BeginResult(files, capacity).gen);
    Homes(0);
    HomeOfZero();
    OneNewer(Generation0(files.a, capacity), Generation0(files.b, capacity));
  }

  lemma HomeOfZero()
    ensures HomeOf(0) == FileB
  {
  }

  // ----- commits

  function Attempted(a: Abstract, staging: Block, ok: bool, changed: bool): Abstract {
    if ok then Abstract(Some(staging), None, a.committed, Succ(a.gen), a.refused && a.gen == 0)
    else if changed then a.(inFlight := Some(staging))
    else a
  }

  /** Whatever a commit leaves, a valid record is in its home. */
  lemma CommitHomed(s: FileStore, s': FileStore, ok: bool, capacity: uint32)
    requires Homed(s.files, capacity) && |s.staging| == capacity && CommitCall(s, s', ok)
    ensures Homed(s'.files, capacity)
  {
    hide NumberAt, ValidFile, Generation, FilePayload, Leaves, Succ, FileRecord, HomeOf;
    var next := Succ(s.gen);
    RecordValid(next, s.staging);
    OnlyWholeRecords(s.files.Get(HomeOf(next)), next, s.staging, s'.files.Get(HomeOf(next)));
  }

  lemma CommitOrdered(s: FileStore, s': FileStore, ok: bool, capacity: uint32, a: Abstract)
    requires Ordered(s.files, capacity, a) && (s.on ==> s.gen == a.gen) && !a.refused
    requires |s.staging| == capacity && CommitCall(s, s', ok)
    ensures Ordered(s'.files, capacity, Attempted(a, s.staging, ok, s'.files != s.files))
  {
    hide NumberAt, ValidFile, Generation, FilePayload, Leaves, Succ, Pred, FileRecord, Newer;
    Homes(s.gen);
    SerialOrder(s.gen);
    RecordValid(Succ(s.gen), s.staging);
    OnlyWholeRecords(s.files.Get(HomeOf(Succ(s.gen))), Succ(s.gen), s.staging, s'.files.Get(HomeOf(Succ(s.gen))));
  }

  /** The first save after a refused erase goes to file A, and the second one to file B,
      over what the erase left there. */
  lemma CommitRestarted(s: FileStore, s': FileStore, ok: bool, capacity: uint32, a: Abstract)
    requires Restarted(s.files, capacity, a) && (s.on ==> s.gen == a.gen) && a.refused
    requires |s.staging| == capacity && CommitCall(s, s', ok)
    ensures var a' := Attempted(a, s.staging, ok, s'.files != s.files);
            if a'.refused then Restarted(s'.files, capacity, a') else Ordered(s'.files, capacity, a')
  {
    hide NumberAt, ValidFile, Generation, FilePayload, Leaves, FileRecord;
    RecordValid(Succ(s.gen), s.staging);
  }

  lemma CommitKeeps(s: FileStore, s': FileStore, ok: bool, capacity: uint32, a: Abstract)
    requires Inv(s, capacity, a) && |s.staging| == capacity && CommitCall(s, s', ok)
    ensures Inv(s', capacity, Attempted(a, s.staging, ok, s'.files != s.files))
  {
    hide Ordered, Restarted, Homed, Leaves, Succ, FileRecord;
    CommitHomed(s, s', ok, capacity);
    if a.refused {
      CommitRestarted(s, s', ok, capacity, a);
    } else {
      CommitOrdered(s, s', ok, capacity, a);
    }
  }

  // ----- erases

  predicate Stays(name: Name, goneA: bool, goneB: bool) {
    if name == FileA then !goneA else !goneB
  }

  /** What an erase that lost power leaves of an ordered medium. */
  function Remaining(files: Files, capacity: uint32, a: Abstract, goneA: bool, goneB: bool): Abstract {
    var home := HomeOf(a.gen);
    var other := files.Get(OtherName(home));
    var activeStays, otherStays := Stays(home, goneA, goneB), Stays(OtherName(home), goneA, goneB);
    if activeStays && otherStays then a
    else if otherStays && Flew(files, capacity, a) then Abstract(a.inFlight, None, None, Succ(a.gen), false)
    else if activeStays then Abstract(a.committed, None, None, a.gen, false)
    else if otherStays && ValidFile(other, capacity) then Abstract(a.previous, None, None, Generation(other), false)
    else NOTHING
  }

  function Erased(files: Files, capacity: uint32, a: Abstract, goneA: bool, goneB: bool, on: bool): Abstract {
    if goneA && goneB then NOTHING
    else if on || a.refused then a.(gen := 0, refused := true)
    else Remaining(files, capacity, a, goneA, goneB)
  }

  /** Exactly what a start-up restores after an erase, by which removals happened and which
      file was active: the record in flight while its whole file stays, else the last
      committed one while the active file stays, else the one before it while its whole
      file stays, else nothing. */
  lemma EraseRestores(s: FileStore, capacity: uint32, a: Abstract, goneA: bool, goneB: bool)
    requires Inv(s, capacity, a) && !a.refused
    ensures var home := HomeOf(a.gen);
            var other := s.files.Get(OtherName(home));
            var activeStays, otherStays := Stays(home, goneA, goneB), Stays(OtherName(home), goneA, goneB);
            Found(Without(s.files, goneA, goneB), capacity)
            == if otherStays && Flew(s.files, capacity, a) then a.inFlight
               else if activeStays then a.committed
               else if otherStays && ValidFile(other, capacity) then a.previous
               else None
  {
    hide NumberAt, ValidFile, Generation, FilePayload, Newer, Succ, Pred, Fill, HomeOf;
    Homes(a.gen);
    SerialOrder(a.gen);
    BootLoads(s, capacity, a);
    AbsentInvalid(capacity);
    if !goneA && !goneB {
      assert Without(s.files, goneA, goneB) == s.files;
    }
  }

  lemma AbsentInvalid(capacity: uint32)
    ensures !ValidFile(Absent, capacity)
  {
  }

  lemma EraseKeeps(s: FileStore, s': FileStore, capacity: uint32, a: Abstract, goneA: bool, goneB: bool)
    requires Inv(s, capacity, a) && EraseCall(s, s', goneA, goneB)
    ensures Inv(s', capacity, Erased(s.files, capacity, a, goneA, goneB, s'.on))
  {
    hide NumberAt, ValidFile, Generation, FilePayload, Newer, Succ, Pred, Fill, HomeOf;
    Homes(a.gen);
    Homes(0);
    HomeOfZero();
    AbsentInvalid(capacity);
    if !a.refused {
      SerialOrder(a.gen);
      Homes(Succ(a.gen));
      var other := s.files.Get(OtherName(HomeOf(a.gen)));
      Homes(Generation0(other, capacity));
    }
  }

  /** After an erase and a successful commit of `record` a start-up loads it, unless file B
      stayed behind with a generation that is not older than 1. */
  lemma ResetLoads(s: FileStore, t: FileStore, t': FileStore, capacity: uint32, record: Block, goneA: bool, goneB: bool)
    requires |s.staging| == |record| == capacity && EraseCall(s, t, goneA, goneB)
    requires CommitCall(t.(staging := record), t', true)
    ensures var keptB := !goneB && ValidFile(s.files.b, capacity) && !Newer(1, Generation(s.files.b));
            BeginResult(t'.files, capacity)
            == if keptB then FileStore(t'.files, FilePayload(s.files.b, capacity), Generation(s.files.b), true)
               else FileStore(t'.files, record, 1, true)
    ensures InOrder(t, goneA, goneB) ==> BeginResult(t'.files, capacity).staging == record
  {
    hide NumberAt, ValidFile, Generation, FilePayload, Newer, Fill, FileRecord;
    RecordValid(1, record);
    AbsentInvalid(capacity);
  }

  /** File B has a record that is not older than generation 1. */
  predicate StaleRules(files: Files, capacity: uint32) {
    ValidFile(files.b, capacity) && !Newer(1, Generation(files.b))
  }

  /** Between the first and the second save after a refused erase a start-up loads the first
      one, unless file B holds a record that is not older. */
  lemma RestartLoads(s: FileStore, capacity: uint32, a: Abstract)
    requires Inv(s, capacity, a) && a.refused && a.gen == 1
    ensures Found(s.files, capacity)
            == if StaleRules(s.files, capacity) then Some(FilePayload(s.files.b, capacity)) else a.committed
  {
    hide NumberAt, ValidFile, Generation, FilePayload, Newer, Fill;
  }

  /** A commit to an empty medium leaves its record exactly when file A is whole. */
  lemma FirstCommit(s: FileStore, s': FileStore, ok: bool)
    requires s.files == Files(Absent, Absent) && s.gen == 0 && |s.staging| < WORD_LIMIT && CommitCall(s, s', ok)
    ensures Found(s'.files, |s.staging|) == if ValidFile(s'.files.a, |s.staging|) then Some(s.staging) else None
  {
    hide NumberAt, ValidFile, Generation, FilePayload, Newer, Fill, FileRecord, Leaves;
    RecordValid(1, s.staging);
    AbsentInvalid(|s.staging|);
    OnlyWholeRecords(Absent, 1, s.staging, s'.files.a);
  }

  /** The older record comes back: with generations 3 and 2 on the medium, a cut between
      the two removals leaves generation 2 to the next start-up. */
  lemma CutEraseRestoresOlder(older: Block, last: Block)
    requires |older| == |last| < WORD_LIMIT
    ensures var files := Files(Present(FileRecord(3, last)), Present(FileRecord(2, older)));
            Found(files, |last|) == Some(last) && Found(Without(files, true, false), |last|) == Some(older)
  {
    hide NumberAt, ValidFile, Generation, FilePayload, Fill, FileRecord;
    RecordValid(3, last);
    RecordValid(2, older);
    AbsentInvalid(|last|);
  }

  // ----- whole runs

  datatype Event = Boot | Stage(offset: nat, data: Block) | Commit(ok: bool) | Erase(goneA: bool, goneB: bool)

  /** Start-ups, writes into the staging buffer, commits and erases; power may go in any
      commit or erase, and a start-up brings it back. */
  ghost predicate Next(capacity: uint32, s: FileStore, a: Abstract, e: Event, s': FileStore, a': Abstract)
    requires |s.staging| == capacity
  {
    match e
    case Boot => s' == BeginResult(s.files, capacity) && a' == Booted(s.files, capacity)
    case Stage(offset, data) =>
      offset + |data| <= capacity && s' == s.(staging := Splice(s.staging, offset, data)) && a' == a
    case Commit(ok) =>
      CommitCall(s, s', ok) && a' == Attempted(a, s.staging, ok, s'.files != s.files)
    case Erase(goneA, goneB) =>
      EraseCall(s, s', goneA, goneB) && a' == Erased(s.files, capacity, a, goneA, goneB, s'.on)
  }

  ghost predicate IsRun(capacity: uint32, ss: seq<FileStore>, aa: seq<Abstract>, ee: seq<Event>) {
    && |ss| == |aa| == |ee| + 1
    && (forall i :: 0 <= i < |ss| ==> |ss[i].staging| == capacity)
    && (forall i :: 0 <= i < |ee| ==> Next(capacity, ss[i], aa[i], ee[i], ss[i + 1], aa[i + 1]))
    && ss[0] == BeginResult(Files(Absent, Absent), capacity) && aa[0] == NOTHING
  }

  lemma {:induction false} RunInv(capacity: uint32, ss: seq<FileStore>, aa: seq<Abstract>, ee: seq<Event>)
    requires IsRun(capacity, ss, aa, ee)
    ensures Inv(ss[|ee|], capacity, aa[|ee|])
  {
    hide Inv, CommitCall, EraseCall, Found, BeginResult, Booted, Attempted, Erased;
    if |ee| == 0 {
      EmptyInv(capacity);
    } else {
      var n := |ee| - 1;
      RunInv(capacity, ss[..n + 1], aa[..n + 1], ee[..n]);
      assert Next(capacity, ss[n], aa[n], ee[n], ss[n + 1], aa[n + 1]);
      StepKeeps(capacity, ss[n], aa[n], ee[n], ss[n + 1], aa[n + 1]);
    }
  }

  lemma StepKeeps(capacity: uint32, s: FileStore, a: Abstract, e: Event, s': FileStore, a': Abstract)
    requires |s.staging| == capacity && Inv(s, capacity, a) && Next(capacity, s, a, e, s', a')
    ensures Inv(s', capacity, a')
  {
    hide CommitCall, EraseCall, Found, BeginResult, Booted, Attempted, Erased, Ordered, Homed;
    match e
    case Boot => BootOrders(s.files, capacity);
    case Stage(_, _) =>
    case Commit(ok) => CommitKeeps(s, s', ok, capacity, a);
    case Erase(goneA, goneB) => EraseKeeps(s, s', capacity, a, goneA, goneB);
  }

  lemma EmptyInv(capacity: uint32)
    ensures Inv(BeginResult(Files(Absent, Absent), capacity), capacity, NOTHING)
  {
  }

  /** Every run from an empty file system, through generation wrap-around, with erases and
      power cuts: odd generations are only ever valid in file A and even ones in file B. A
      start-up at this point loads the last committed record, or the interrupted one exactly
      when its file is whole; and after the first commit that follows a refused removal, the
      committed record unless file B kept one that is not older. */
  lemma FileAtomicity(capacity: uint32, ss: seq<FileStore>, aa: seq<Abstract>, ee: seq<Event>)
    requires IsRun(capacity, ss, aa, ee)
    ensures var files := ss[|ee|].files;
            && (ValidFile(files.a, capacity) ==> Generation(files.a) % 2 == 1)
            && (ValidFile(files.b, capacity) ==> Generation(files.b) % 2 == 0)
    ensures var files, a := ss[|ee|].files, aa[|ee|];
            && (!a.refused ==>
                  Found(files, capacity) == if Flew(files, capacity, a) then a.inFlight else a.committed)
            && (a.refused && a.gen == 1 ==>
                  Found(files, capacity)
                  == if StaleRules(files, capacity) then Some(FilePayload(files.b, capacity)) else a.committed)
  {
    hide ValidFile, Generation, FilePayload, Next, Found, Flew, Ordered, Restarted, StaleRules;
    RunInv(capacity, ss, aa, ee);
    if !aa[|ee|].refused {
      BootLoads(ss[|ee|], capacity, aa[|ee|]);
    } else if aa[|ee|].gen == 1 {
      RestartLoads(ss[|ee|], capacity, aa[|ee|]);
    }
  }

  /** How many successful commits the run ends with since the last erase. */
  function SavesSinceErase(ee: seq<Event>): (n: nat) {
    if ee == [] then 0
    else
      var e := ee[|ee| - 1];
      if e.Erase? then 0 else SavesSinceErase(ee[..|ee| - 1]) + if e == Commit(true) then 1 else 0
  }

  /** A refused removal is over with the second successful save: it overwrites what stayed
      behind. */
  lemma {:induction false} SecondSaveRestoresOrder(capacity: uint32, ss: seq<FileStore>, aa: seq<Abstract>,
      ee: seq<Event>)
    requires IsRun(capacity, ss, aa, ee)
    ensures aa[|ee|].refused ==> SavesSinceErase(ee) <= aa[|ee|].gen <= 1
    ensures SavesSinceErase(ee) >= 2 ==>
              Found(ss[|ee|].files, capacity)
              == if Flew(ss[|ee|].files, capacity, aa[|ee|]) then aa[|ee|].inFlight else aa[|ee|].committed
  {
    hide Inv, CommitCall, EraseCall, Found, BeginResult, Spare, Flew, ValidFile, Generation, FilePayload;
    FileAtomicity(capacity, ss, aa, ee);
    if |ee| == 0 {
    } else {
      var n := |ee| - 1;
      SecondSaveRestoresOrder(capacity, ss[..n + 1], aa[..n + 1], ee[..n]);
      assert Next(capacity, ss[n], aa[n], ee[n], ss[n + 1], aa[n + 1]);
    }
  }
}
