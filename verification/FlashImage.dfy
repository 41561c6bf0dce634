/** The two-slot flash record store as a state machine over its medium: what a
    start-up exposes, and what every erase, write, commit and power cut keeps. */
module FlashImage {
  import opened Bytes
  import opened Crc32
  import opened Options

  const SLOT_A: nat := 0x0801F000
  const SLOT_B: nat := 0x0801F800
  const SLOT_SIZE: nat := 2048
  const PAGE_SIZE: nat := 1024
  const REGION_SIZE: nat := 4096
  const ENVELOPE_SIZE: nat := 16
  const PAYLOAD_SIZE: nat := 2032
  const MAGIC: uint32 := 0xA5F103CB
  const COMMIT_MARKER: byte := 0x5A

  type Image = s: Block | |s| == REGION_SIZE witness Fill(REGION_SIZE, 0xFF)
  type Record = s: Block | |s| == PAYLOAD_SIZE witness Fill(PAYLOAD_SIZE, 0xFF)
  type Slot = a: nat | a == SLOT_A || a == SLOT_B witness SLOT_A

  function Other(slot: Slot): Slot {
    if slot == SLOT_A then SLOT_B else SLOT_A
  }

  /** The 2048 bytes of a slot. */
  function Content(img: Block, slot: Slot): (r: Block)
    requires |img| == REGION_SIZE
    ensures |r| == SLOT_SIZE
  {
    img[slot - SLOT_A..slot - SLOT_A + SLOT_SIZE]
  }

  function Payload(s: Block): (r: Block)
    requires |s| == SLOT_SIZE
    ensures |r| == PAYLOAD_SIZE
  {
    s[ENVELOPE_SIZE..]
  }

  predicate Committed(s: Block)
    requires |s| == SLOT_SIZE
  {
    NumberAt(s, 0) == MAGIC && s[12] == COMMIT_MARKER && WordAt(s, 8) == Checksum(Payload(s))
  }

  /** Envelope fields and marker all erased. */
  predicate HeaderBlank(s: Block)
    requires |s| == SLOT_SIZE
  {
    forall i :: 0 <= i < 13 ==> s[i] == 0xFF
  }

  function Sequence(s: Block): uint32
    requires |s| == SLOT_SIZE
  {
    NumberAt(s, 4)
  }

  /** Magic, number and checksum: the envelope without its marker byte. */
  function Envelope(seqNo: uint32, payload: Block): (r: Block)
    ensures |r| == 12
  {
    NumberBytes(MAGIC) + NumberBytes(seqNo) + WordBytes(Checksum(payload))
  }

  lemma EnvelopeFields(seqNo: uint32, payload: Block)
    ensures var r := Envelope(seqNo, payload);
            NumberAt(r, 0) == MAGIC && NumberAt(r, 4) == seqNo && WordAt(r, 8) == Checksum(payload)
  {
    hide NumberAt, WordAt, NumberBytes, WordBytes, Checksum;
    var r := Envelope(seqNo, payload);
    NumberMoves(NumberBytes(MAGIC), r, 0);
    NumberMoves(NumberBytes(seqNo), r, 4);
    WordMoves(WordBytes(Checksum(payload)), r, 8);
  }

  /** A slot byte by byte: it is committed if and only if it begins with the magic bytes, has
      the marker behind the checksum, and the checksum, lowest byte first, is its payload's. */
  lemma SlotBytes(s: Block)
    requires |s| == 2048
    ensures Committed(s) <==>
            && s[..4] == [0xCB, 0x03, 0xF1, 0xA5] && s[12] == 0x5A
            && Checksum(s[16..])
               == (s[8] as bv32) | ((s[9] as bv32) << 8) | ((s[10] as bv32) << 16) | ((s[11] as bv32) << 24)
    ensures HeaderBlank(s) <==> s[..13] == Fill(13, 0xFF)
  {
    hide Checksum, NumberAt, NumberBytes, WordAt, Committed;
    CommittedIs(s);
    MagicStands(s);
    WordIs(s, 8);
  }

  lemma CommittedIs(s: Block)
    requires |s| == 2048
    ensures Committed(s) <==> NumberAt(s, 0) == MAGIC && s[12] == 0x5A && Checksum(s[16..]) == WordAt(s, 8)
  {
    hide Checksum, NumberAt, WordAt;
  }

  lemma MagicStands(s: Block)
    requires |s| == 2048
    ensures NumberAt(s, 0) == MAGIC <==> s[..4] == [0xCB, 0x03, 0xF1, 0xA5]
  {
    hide NumberAt, NumberBytes;
    MagicBytes();
    NumberUnique(s, 0);
    if s[0..4] == NumberBytes(MAGIC) {
      NumberMoves(NumberBytes(MAGIC), s, 0);
    }
    assert s[..4] == s[0..4];
  }

  /** The slots' addresses, and the number of a record, lowest byte first. */
  lemma SlotPlaces(s: Block)
    requires |s| == 2048
    ensures SLOT_A == 0x0801_F000 && SLOT_B == 0x0801_F800
    ensures Sequence(s)
            == s[4] as nat + 0x100 * (s[5] as nat) + 0x1_0000 * (s[6] as nat) + 0x100_0000 * (s[7] as nat)
  {
    hide NumberAt;
    NumberIs(s, 4);
  }

  lemma MagicBytes()
    ensures NumberBytes(MAGIC) == [0xCB, 0x03, 0xF1, 0xA5]
  {
    hide NumberBytes;
    NumberUnique([0xCB, 0x03, 0xF1, 0xA5], 0);
  }

  // ----- the medium

  /** A byte caught while it is being programmed: bits only fall, and only those the data clears. */
  predicate Between(before: byte, now: byte, data: byte) {
    before & now == now && (before & data) & now == before & data
  }

  /** The data asks for no bit that is already cleared. */
  predicate Clears(before: byte, data: byte) {
    before & data == data
  }

  /** Programming can only clear bits, so the data must ask for nothing else. */
  predicate Programmable(img: Block, at: nat, data: Block)
    requires at + |data| <= |img|
  {
    forall i :: 0 <= i < |data| ==> Clears(img[at + i], data[i])
  }

  /** What programming `data` at `at` may leave: refused and unchanged, complete,
      or torn with each byte somewhere on its way. */
  ghost predicate Program(img: Block, at: nat, data: Block, img': Block, ok: bool)
    requires at + |data| <= |img|
  {
    |img'| == |img| &&
    if !Programmable(img, at, data) then !ok && img' == img
    else if ok then img' == Splice(img, at, data)
    else
      (forall i :: 0 <= i < |data| ==> Between(img[at + i], img'[at + i], data[i])) &&
      (forall i :: 0 <= i < |img| && !(at <= i < at + |data|) ==> img'[i] == img[i])
  }

  function ErasePage(img: Block, at: nat): (r: Block)
    requires at + PAGE_SIZE <= |img|
    ensures |r| == |img|
  {
    seq(|img|, i requires 0 <= i < |img| => if at <= i < at + PAGE_SIZE then 0xFF else img[i])
  }

  // ----- the store

  /** The medium and the adapter's fields. */
  datatype Store = Store(img: Image, slot: Slot, seqNo: uint32, valid: bool,
                         prov: Slot, newSeq: uint32, ready: bool)

  /** A newly constructed adapter over a medium. */
  function Constructed(img: Image): Store {
    Store(img, SLOT_A, 0, false, SLOT_B, 0, false)
  }

  /** The start-up choice: of two valid slots the one with the newer number, else the
      valid one, else an erased one under number 0, else failure. */
  ghost predicate BeginCall(s: Store, s': Store, ok: bool) {
    var a, b := Content(s.img, SLOT_A), Content(s.img, SLOT_B);
    var both := Committed(a) && Committed(b);
    var none := !Committed(a) && !Committed(b);
    && s' == s.(slot := s'.slot, seqNo := s'.seqNo, valid := ok)
    && (both ==> ok && s'.slot == (if Newer(Sequence(a), Sequence(b)) then SLOT_A else SLOT_B))
    && (!both && !none ==> ok && s'.slot == (if Committed(a) then SLOT_A else SLOT_B))
    && (!none ==> s'.seqNo == Sequence(Content(s.img, s'.slot)))
    && (none && HeaderBlank(a) ==> ok && s'.slot == SLOT_A && s'.seqNo == 0)
    && (none && !HeaderBlank(a) && HeaderBlank(b) ==> ok && s'.slot == SLOT_B && s'.seqNo == 0)
    && (none && !HeaderBlank(a) && !HeaderBlank(b) ==> !ok && s'.slot == s.slot && s'.seqNo == s.seqNo)
  }

  ghost predicate EraseCall(s: Store, s': Store, ok: bool) {
    if !s.valid then s' == s && !ok
    else
      var prov := Other(s.slot);
      var at := prov - SLOT_A;
      var one := ErasePage(s.img, at);
      var two := ErasePage(one, at + PAGE_SIZE);
      s'.slot == s.slot && s'.seqNo == s.seqNo && s'.valid == s.valid &&
      s'.prov == prov && s'.newSeq == Succ(s.seqNo) &&
      if ok then s'.img == two && s'.ready
      else (s'.img == s.img || s'.img == one) && s'.ready == s.ready
  }

  ghost predicate WriteCall(s: Store, offset: nat, data: Block, s': Store, ok: bool) {
    s' == s.(img := s'.img) &&
    if !s.ready || |data| == 0 || offset > PAYLOAD_SIZE || |data| > PAYLOAD_SIZE - offset then
      s'.img == s.img && !ok
    else
      Program(s.img, s.prov - SLOT_A + ENVELOPE_SIZE + offset, data, s'.img, ok)
      || (s'.img == s.img && !ok)
  }

  /** The envelope is programmed first, the marker byte last, and the fields change
      only when both and the final flush succeed. */
  ghost predicate CommitCall(s: Store, s': Store, ok: bool) {
    if !s.ready then s' == s && !ok
    else
      && s' == (if ok then s.(img := s'.img, slot := s.prov, seqNo := s.newSeq, ready := false)
                else s.(img := s'.img))
      && var at := s.prov - SLOT_A;
         var header := Envelope(s.newSeq, Payload(Content(s.img, s.prov)));
         ((s'.img == s.img && !ok)
          || (Program(s.img, at, header, s'.img, false) && !ok)
          || (Programmable(s.img, at, header) &&
              var mid := Splice(s.img, at, header);
              Program(mid, at + 12, [COMMIT_MARKER], s'.img, true)
              || (Program(mid, at + 12, [COMMIT_MARKER], s'.img, false) && !ok)))
  }

  // ----- what a medium holds

  /** The active slot holds `payload` under number `seqNo`; before the first commit
      it is the erased slot A under number 0. */
  predicate Intact(img: Image, slot: Slot, seqNo: uint32, payload: Block) {
    var s := Content(img, slot);
    Payload(s) == payload &&
    if Committed(s) then Sequence(s) == seqNo
    else slot == SLOT_A && seqNo == 0 && HeaderBlank(s) && payload == Fill(PAYLOAD_SIZE, 0xFF)
  }

  /** The abstract store: what was committed last, what an open transaction has
      staged, and what an interrupted commit may have made durable. */
  datatype Abstract = Abstract(committed: Record, staged: Option<Record>, inFlight: Option<Record>)

  /** The other slot is invalid, the predecessor, or the record of an interrupted commit. */
  predicate Rival(img: Image, slot: Slot, seqNo: uint32, inFlight: Option<Record>) {
    var o := Content(img, Other(slot));
    Committed(o) ==> (Committed(Content(img, slot)) && Sequence(o) == Pred(seqNo))
                     || (inFlight.Some? && Sequence(o) == Succ(seqNo) && Payload(o) == inFlight.value)
  }

  predicate Inv(s: Store, a: Abstract) {
    && s.valid
    && Intact(s.img, s.slot, s.seqNo, a.committed)
    && Rival(s.img, s.slot, s.seqNo, a.inFlight)
    && (a.staged.Some? ==>
          && s.ready && s.prov == Other(s.slot) && s.newSeq == Succ(s.seqNo)
          && HeaderBlank(Content(s.img, s.prov))
          && Payload(Content(s.img, s.prov)) == a.staged.value)
  }

  /** What `read` returns from: the payload area of the active slot. */
  function Exposed(s: Store): Record {
    Payload(Content(s.img, s.slot))
  }

  datatype Event = Boot | Erase(ok: bool) | Write(offset: nat, data: Block, ok: bool) | Commit(ok: bool)

  /** A call and its meaning for the abstract store. Power may be cut in any call,
      which then reports failure; a boot follows when it returns. After a failed call
      an open transaction is restarted by an erase or a boot. */
  ghost predicate Next(s: Store, a: Abstract, e: Event, s': Store, a': Abstract) {
    match e
    case Boot =>
      (exists ok :: BeginCall(Constructed(s.img), s', ok)) && a' == Abstract(Exposed(s'), None, None)
    case Erase(ok) =>
      EraseCall(s, s', ok) &&
      a' == Abstract(a.committed, if ok then Some(Fill(PAYLOAD_SIZE, 0xFF)) else None,
                     if ok then None else a.inFlight)
    case Write(offset, data, ok) =>
      (s.ready ==> a.staged.Some?) && WriteCall(s, offset, data, s', ok) &&
      a' == a.(staged := if ok && a.staged.Some? then Some(Splice(a.staged.value, offset, data)) else None)
    case Commit(ok) =>
      (s.ready ==> a.staged.Some?) && CommitCall(s, s', ok) &&
      a' == if ok && a.staged.Some? then Abstract(a.staged.value, None, None)
            else Abstract(a.committed, None, if s.ready then a.staged else a.inFlight)
  }

  // ----- what the medium operations keep

  lemma SameContent(img: Image, img': Image, slot: Slot)
    requires forall i :: slot - SLOT_A <= i < slot - SLOT_A + SLOT_SIZE ==> img'[i] == img[i]
    ensures Content(img', slot) == Content(img, slot)
  {
  }

  lemma BlankIsNotCommitted(s: Block)
    requires |s| == SLOT_SIZE && HeaderBlank(s)
    ensures !Committed(s)
  {
    assert s[12] == 0xFF;
  }

  /** Programming inside one slot leaves the other slot and the rest of this one alone. */
  lemma ProgramLocal(img: Image, slot: Slot, offset: nat, data: Block, img': Image, ok: bool)
    requires offset + |data| <= SLOT_SIZE
    requires Program(img, slot - SLOT_A + offset, data, img', ok)
    ensures Content(img', Other(slot)) == Content(img, Other(slot))
    ensures forall i :: 0 <= i < SLOT_SIZE && !(offset <= i < offset + |data|)
              ==> Content(img', slot)[i] == Content(img, slot)[i]
    ensures ok ==> Content(img', slot) == Splice(Content(img, slot), offset, data)
  {
    SameContent(img, img', Other(slot));
    if ok {
      forall i | 0 <= i < SLOT_SIZE
        ensures Content(img', slot)[i] == Splice(Content(img, slot), offset, data)[i]
      {
        if offset <= i < offset + |data| {
          assert img'[slot - SLOT_A + i] == data[i - offset];
        }
      }
    }
  }

  lemma EraseLocal(img: Image, slot: Slot)
    ensures var at := slot - SLOT_A;
            var one := ErasePage(img, at);
            var two := ErasePage(one, at + PAGE_SIZE);
            && HeaderBlank(Content(one, slot))
            && Content(two, slot) == Fill(SLOT_SIZE, 0xFF)
            && Content(one, Other(slot)) == Content(two, Other(slot)) == Content(img, Other(slot))
  {
    var at := slot - SLOT_A;
    var one := ErasePage(img, at);
    var two := ErasePage(one, at + PAGE_SIZE);
    SameContent(img, one, Other(slot));
    SameContent(one, two, Other(slot));
    assert forall i :: 0 <= i < SLOT_SIZE ==> Content(two, slot)[i] == 0xFF;
  }

  // ----- start-up

  /** Whatever the rival slot holds, a start-up succeeds and exposes the committed
      record or the one whose commit was cut, and the latter exactly when that
      record's marker and checksum stand. */
  lemma BootExposes(s: Store, a: Abstract, s': Store, ok: bool)
    requires Inv(s, a) && BeginCall(Constructed(s.img), s', ok)
    ensures ok
    ensures var o := Content(s.img, Other(s.slot));
            if Committed(o) && Sequence(o) == Succ(s.seqNo)
            then a.inFlight.Some? && Exposed(s') == a.inFlight.value && s'.slot == Other(s.slot)
            else Exposed(s') == a.committed && s'.slot == s.slot
    ensures Inv(s', Abstract(Exposed(s'), None, None))
  {
    hide Checksum, NumberAt, WordAt, Newer, Succ, Pred, Fill, Content, Payload, Sequence, Committed, HeaderBlank;
    SerialOrder(s.seqNo);
    if HeaderBlank(Content(s.img, s.slot)) {
      BlankIsNotCommitted(Content(s.img, s.slot));
    }
  }

  lemma EraseKeeps(s: Store, a: Abstract, s': Store, a': Abstract, ok: bool)
    requires Inv(s, a) && Next(s, a, Erase(ok), s', a')
    ensures Inv(s', a')
  {
    hide Checksum, NumberAt, WordAt, Succ, Pred, Fill, Content, Payload, Sequence, Committed, HeaderBlank, ErasePage;
    var o := Content(s'.img, Other(s.slot));
    EraseLocal(s.img, Other(s.slot));
    BlankPayload();
    if s'.img != s.img || ok {
      BlankIsNotCommitted(o);
    }
  }

  lemma BlankPayload()
    ensures Payload(Fill(SLOT_SIZE, 0xFF)) == Fill(PAYLOAD_SIZE, 0xFF)
    ensures HeaderBlank(Fill(SLOT_SIZE, 0xFF))
  {
  }

  /** Programming payload bytes leaves a blank header blank. */
  lemma StagingKeepsBlank(img: Image, slot: Slot, offset: nat, data: Block, img': Image, ok: bool)
    requires offset + |data| <= PAYLOAD_SIZE && HeaderBlank(Content(img, slot))
    requires Program(img, slot - SLOT_A + ENVELOPE_SIZE + offset, data, img', ok)
    ensures Content(img', Other(slot)) == Content(img, Other(slot))
    ensures HeaderBlank(Content(img', slot)) && !Committed(Content(img', slot))
    ensures ok ==> Payload(Content(img', slot)) == Splice(Payload(Content(img, slot)), offset, data)
  {
    hide Checksum, NumberAt, WordAt, Between, Programmable;
    ProgramLocal(img, slot, ENVELOPE_SIZE + offset, data, img', ok);
    BlankIsNotCommitted(Content(img', slot));
  }

  lemma WriteKeeps(s: Store, a: Abstract, offset: nat, data: Block, s': Store, a': Abstract, ok: bool)
    requires Inv(s, a) && Next(s, a, Write(offset, data, ok), s', a')
    ensures Inv(s', a')
  {
    hide Checksum, NumberAt, WordAt, Succ, Pred, Fill, Content, Payload, Sequence, Committed, HeaderBlank, Program,
         Splice;
    if s'.img != s.img || ok {
      StagingKeepsBlank(s.img, s.prov, offset, data, s'.img, ok);
    }
  }

  /** A torn envelope has no marker yet. */
  lemma HeaderTorn(img: Image, slot: Slot, header: Block, img': Image)
    requires |header| == 12 && HeaderBlank(Content(img, slot))
    requires Program(img, slot - SLOT_A, header, img', false)
    ensures Content(img', Other(slot)) == Content(img, Other(slot))
    ensures Payload(Content(img', slot)) == Payload(Content(img, slot))
    ensures Content(img', slot)[12] == 0xFF
  {
    hide Checksum, NumberAt, WordAt, Between, Programmable;
    ProgramLocal(img, slot, 0, header, img', false);
  }

  /** With the envelope in place the marker byte decides. */
  lemma MarkerDecides(img: Image, slot: Slot, seqNo: uint32, payload: Block, img': Image, done: bool)
    requires Payload(Content(img, slot)) == payload
    requires var mid := Splice(img, slot - SLOT_A, Envelope(seqNo, payload));
             Program(mid, slot - SLOT_A + 12, [COMMIT_MARKER], img', done)
    ensures Content(img', Other(slot)) == Content(img, Other(slot))
    ensures var o := Content(img', slot);
            && Payload(o) == payload && Sequence(o) == seqNo
            && (Committed(o) <==> o[12] == COMMIT_MARKER)
            && (done ==> Committed(o))
  {
    hide Checksum, NumberAt, WordAt, Between, Programmable, Envelope;
    var header := Envelope(seqNo, payload);
    var mid := Splice(img, slot - SLOT_A, header);
    assert Content(mid, Other(slot)) == Content(img, Other(slot)) by {
      SameContent(img, mid, Other(slot));
    }
    assert Content(mid, slot) == Splice(Content(img, slot), 0, header);
    ProgramLocal(mid, slot, 12, [COMMIT_MARKER], img', done);
    var o := Content(img', slot);
    assert o[..12] == header;
    assert Payload(o) == payload;
    EnvelopeRead(o, header);
    EnvelopeFields(seqNo, payload);
    if done {
      assert o == Splice(Content(mid, slot), 12, [COMMIT_MARKER]);
      assert o[12..13] == [COMMIT_MARKER];
      assert o[12] == o[12..13][0];
    }
  }

  lemma EnvelopeRead(o: Block, header: Block)
    requires |o| == SLOT_SIZE && |header| == 12 && o[..12] == header
    ensures NumberAt(o, 0) == NumberAt(header, 0) && NumberAt(o, 4) == NumberAt(header, 4)
    ensures WordAt(o, 8) == WordAt(header, 8)
  {
    NumberMoves(header[0..4], o, 0);
    NumberMoves(header[0..4], header, 0);
    NumberMoves(header[4..8], o, 4);
    NumberMoves(header[4..8], header, 4);
    WordMoves(header[8..12], o, 8);
    WordMoves(header[8..12], header, 8);
  }

  /** A commit of an open transaction: the marker byte alone decides. */
  lemma CommitDecides(s: Store, a: Abstract, s': Store, ok: bool)
    requires Inv(s, a) && a.staged.Some? && CommitCall(s, s', ok)
    ensures Content(s'.img, s.slot) == Content(s.img, s.slot)
    ensures var o := Content(s'.img, s.prov);
            && Payload(o) == a.staged.value
            && (Committed(o) <==> o[12] == COMMIT_MARKER)
            && (Committed(o) ==> Sequence(o) == Succ(s.seqNo))
            && (ok ==> Committed(o))
  {
    hide Checksum, NumberAt, WordAt, Program, Succ, Pred, Fill, Content, Payload, Sequence, Splice, Envelope,
         Programmable, HeaderBlank;
    var header := Envelope(s.newSeq, a.staged.value);
    var at := s.prov - SLOT_A;
    var before, o := Content(s.img, s.prov), Content(s'.img, s.prov);
    if s'.img == s.img && !ok {
      BlankIsNotCommitted(before);
      BlankMarker(before);
    } else if Program(s.img, at, header, s'.img, false) && !ok {
      HeaderTorn(s.img, s.prov, header, s'.img);
    } else {
      var mid := Splice(s.img, at, header);
      if Program(mid, at + 12, [COMMIT_MARKER], s'.img, true) {
        MarkerDecides(s.img, s.prov, s.newSeq, a.staged.value, s'.img, true);
      } else {
        MarkerDecides(s.img, s.prov, s.newSeq, a.staged.value, s'.img, false);
      }
    }
  }

  lemma BlankMarker(s: Block)
    requires |s| == SLOT_SIZE && HeaderBlank(s)
    ensures s[12] == 0xFF
  {
  }

  lemma CommitKeeps(s: Store, a: Abstract, s': Store, a': Abstract, ok: bool)
    requires Inv(s, a) && Next(s, a, Commit(ok), s', a')
    ensures Inv(s', a')
  {
    hide Checksum, NumberAt, WordAt, CommitCall, Succ, Pred, Fill, Content, Payload, Sequence, Committed, HeaderBlank;
    if s.ready {
      CommitDecides(s, a, s', ok);
      CommitFields(s, s', ok);
      SerialOrder(s.seqNo);
      if HeaderBlank(Content(s.img, s.slot)) {
        BlankIsNotCommitted(Content(s.img, s.slot));
      }
    } else {
      CommitIdle(s, s', ok);
    }
  }

  lemma CommitIdle(s: Store, s': Store, ok: bool)
    requires CommitCall(s, s', ok) && !s.ready
    ensures s' == s && !ok
  {
  }

  lemma CommitFields(s: Store, s': Store, ok: bool)
    requires CommitCall(s, s', ok) && s.ready
    ensures s' == if ok then s.(img := s'.img, slot := s.prov, seqNo := s.newSeq, ready := false)
                  else s.(img := s'.img)
  {
  }

  // ----- whole runs

  lemma NextKeeps(s: Store, a: Abstract, e: Event, s': Store, a': Abstract)
    requires Inv(s, a) && Next(s, a, e, s', a')
    ensures Inv(s', a')
  {
    hide Inv, BeginCall, EraseCall, WriteCall, CommitCall;
    match e
    case Boot =>
      var ok :| BeginCall(Constructed(s.img), s', ok);
      BootExposes(s, a, s', ok);
    case Erase(ok) => EraseKeeps(s, a, s', a', ok);
    case Write(offset, data, ok) => WriteKeeps(s, a, offset, data, s', a', ok);
    case Commit(ok) => CommitKeeps(s, a, s', a', ok);
  }

  /** States, abstract states and events of a run; entry 0 is the first start-up. */
  ghost predicate IsRun(ss: seq<Store>, aa: seq<Abstract>, ee: seq<Event>) {
    && |ss| == |aa| == |ee| + 1
    && (forall i :: 0 <= i < |ee| ==> Next(ss[i], aa[i], ee[i], ss[i + 1], aa[i + 1]))
  }

  /** The first start-up of erased flash. */
  ghost predicate FirstBoot(s: Store, a: Abstract) {
    && (exists ok :: BeginCall(Constructed(Fill(REGION_SIZE, 0xFF)), s, ok))
    && a == Abstract(Exposed(s), None, None)
  }

  lemma FirstBootInv(s: Store, a: Abstract)
    requires FirstBoot(s, a)
    ensures Inv(s, a) && a.committed == Fill(PAYLOAD_SIZE, 0xFF)
  {
    hide Checksum, NumberAt, WordAt, Newer, Content, Payload, Sequence, Committed, HeaderBlank, Fill;
    ErasedContent(s.img, SLOT_A);
    ErasedContent(s.img, SLOT_B);
    BlankPayload();
    BlankIsNotCommitted(Fill(SLOT_SIZE, 0xFF));
  }

  lemma ErasedContent(img: Image, slot: Slot)
    requires img == Fill(REGION_SIZE, 0xFF)
    ensures Content(img, slot) == Fill(SLOT_SIZE, 0xFF)
  {
  }

  lemma {:induction false} RunInv(ss: seq<Store>, aa: seq<Abstract>, ee: seq<Event>)
    requires IsRun(ss, aa, ee) && FirstBoot(ss[0], aa[0])
    ensures Inv(ss[|ee|], aa[|ee|])
  {
    hide Inv, Next, FirstBoot;
    if |ee| == 0 {
      FirstBootInv(ss[0], aa[0]);
    } else {
      var n := |ee| - 1;
      RunInv(ss[..n + 1], aa[..n + 1], ee[..n]);
      assert Next(ss[n], aa[n], ee[n], ss[n + 1], aa[n + 1]);
      NextKeeps(ss[n], aa[n], ee[n], ss[n + 1], aa[n + 1]);
    }
  }

  /** Safety of every run from erased flash, after any sequence of transactions and
      power cuts: reads return the last committed record while a replacement is
      staged, two valid slots carry neighbouring numbers, and a start-up at this
      point succeeds, picks the newer and exposes either that record or, if a commit
      was cut, the complete record of that commit. */
  lemma FlashAtomicity(ss: seq<Store>, aa: seq<Abstract>, ee: seq<Event>, s': Store, ok: bool)
    requires IsRun(ss, aa, ee) && FirstBoot(ss[0], aa[0])
    requires BeginCall(Constructed(ss[|ee|].img), s', ok)
    ensures var s, a := ss[|ee|], aa[|ee|];
            && s.valid && Exposed(s) == a.committed
            && var active, other := Content(s.img, s.slot), Content(s.img, Other(s.slot));
               (Committed(active) && Committed(other) ==>
                  Sequence(other) == Pred(s.seqNo) || Sequence(other) == Succ(s.seqNo))
    ensures ok
    ensures var s, a := ss[|ee|], aa[|ee|];
            var other := Content(s.img, Other(s.slot));
            if Committed(other) && Sequence(other) == Succ(s.seqNo)
            then a.inFlight.Some? && Exposed(s') == a.inFlight.value
            else Exposed(s') == a.committed
  {
    RunInv(ss, aa, ee);
    BootExposes(ss[|ee|], aa[|ee|], s', ok);
  }

  /** The record of an interrupted commit is whole: a start-up now would pick it. */
  predicate Flew(s: Store) {
    var other := Content(s.img, Other(s.slot));
    Committed(other) && Sequence(other) == Succ(s.seqNo)
  }

  /** No commit has succeeded, and no start-up has picked the record of a cut one. */
  ghost predicate NothingCommitted(ss: seq<Store>, ee: seq<Event>)
    requires |ss| == |ee| + 1
  {
    forall i :: 0 <= i < |ee| ==> ee[i] != Commit(true) && (ee[i] == Boot ==> !Flew(ss[i]))
  }

  /** Until then every read is 0xFF, whatever was erased, staged or cut, commits included. */
  lemma {:induction false} BlankUntilCommitted(ss: seq<Store>, aa: seq<Abstract>, ee: seq<Event>)
    requires IsRun(ss, aa, ee) && FirstBoot(ss[0], aa[0]) && NothingCommitted(ss, ee)
    ensures Exposed(ss[|ee|]) == Fill(PAYLOAD_SIZE, 0xFF)
    ensures (forall i :: 0 <= i < |ee| ==> !ee[i].Commit?) ==> aa[|ee|].inFlight == None
  {
    hide Inv, FirstBoot, Next, Exposed, Fill, Flew;
    RunInv(ss, aa, ee);
    InvExposes(ss[|ee|], aa[|ee|]);
    if |ee| == 0 {
      FirstBootInv(ss[0], aa[0]);
      FirstBootIdle(ss[0], aa[0]);
    } else {
      var n := |ee| - 1;
      BlankUntilCommitted(ss[..n + 1], aa[..n + 1], ee[..n]);
      RunInv(ss[..n + 1], aa[..n + 1], ee[..n]);
      InvExposes(ss[n], aa[n]);
      assert Next(ss[n], aa[n], ee[n], ss[n + 1], aa[n + 1]);
      BlankStep(ss[n], aa[n], ee[n], ss[n + 1], aa[n + 1]);
    }
  }

  lemma FirstBootIdle(s: Store, a: Abstract)
    requires FirstBoot(s, a)
    ensures a.inFlight == None
  {
  }

  lemma BlankStep(s: Store, a: Abstract, e: Event, s': Store, a': Abstract)
    requires Inv(s, a) && Next(s, a, e, s', a') && e != Commit(true) && (e == Boot ==> !Flew(s))
    ensures a'.committed == a.committed
    ensures !e.Commit? && a.inFlight == None ==> a'.inFlight == None
  {
    hide Inv, BeginCall, EraseCall, WriteCall, CommitCall, Exposed, Fill;
    if e.Boot? {
      var ok :| BeginCall(Constructed(s.img), s', ok);
      BootExposes(s, a, s', ok);
    }
  }

  lemma InvExposes(s: Store, a: Abstract)
    requires Inv(s, a)
    ensures Exposed(s) == a.committed
  {
  }
}
