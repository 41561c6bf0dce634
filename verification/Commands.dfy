/** What the host's commands mean: relations between the state and request before and the
    state and reply after. */
module Commands {
  import opened Bytes
  import opened Layout
  import opened KeymapAccess
  import opened Places

  const PACKET_SIZE: nat := 32

  /** What commands read and write: memory, layout options, the custom handler's bytes. */
  datatype State = State(ram: Block, options: bv32, custom: Block, dirty: bool)

  type Packet = p: Block | |p| == PACKET_SIZE witness Fill(PACKET_SIZE, 0)

  /** The bulk offset and size a request names. */
  function Offset(request: Packet): nat {
    request[1] as nat * 256 + request[2] as nat
  }

  function Amount(request: Packet): (n: nat)
    ensures n <= 28
  {
    if request[3] > 28 then 28 else request[3] as nat
  }

  function Data(request: Packet): Block { request[4..4 + Amount(request)] }

  /** Where a key position is kept. */
  function KeyAddress(c: Config, layer: nat, row: nat, column: nat): nat {
    c.keymap + 2 * CellIndex(c, layer, row, column)
  }

  /** Its code, zero off the board. */
  function KeyAt(c: Config, ram: Block, layer: nat, row: nat, column: nat): bv16
    requires Keymap(c).Within(|ram|)
  {
    if OnBoard(c, layer, row, column)
    then CellInside(c, layer, row, column); CellAt(ram, KeyAddress(c, layer, row, column))
    else 0
  }

  /** The host's view of the keymap. */
  function FlatKeymap(c: Config, ram: Block): (f: Block)
    requires Keymap(c).Within(|ram|)
    ensures |f| == KeymapBytes(c)
  {
    EvenKeymap(c);
    Flat(ram, Keymap(c))
  }

  /** Where an encoder direction is kept. */
  function EncoderAddress(c: Config, layer: nat, encoder: nat, clockwise: nat): nat {
    c.encoderMap + 2 * (Place(layer, c.encoderCount, encoder) * 2 + clockwise)
  }

  predicate HasEncoder(c: Config, layer: nat, encoder: nat, clockwise: nat) {
    layer < c.layers && encoder < c.encoderCount && clockwise < 2
  }

  lemma EncoderInside(c: Config, layer: nat, encoder: nat, clockwise: nat)
    requires HasEncoder(c, layer, encoder, clockwise)
    ensures c.encoderMap <= EncoderAddress(c, layer, encoder, clockwise)
    ensures EncoderAddress(c, layer, encoder, clockwise) + 2 <= c.encoderMap + EncoderMapBytes(c)
  {
    PlaceBelow(layer, c.layers, c.encoderCount, encoder);
  }

  // ----- each command

  /** Only bytes of one region may differ, and neither an option nor custom state does. */
  predicate OnlyIn(r: Region, s: State, t: State)
    requires |t.ram| == |s.ram|
  {
    && t.options == s.options && t.custom == s.custom
    && forall k :: 0 <= k < |s.ram| && !r.Has(k) ==> t.ram[k] == s.ram[k]
  }

  /** Commands 0x04 and 0x05: codes travel big-endian; a stored key changes alone and is
      dirty, a refused one changes nothing. */
  predicate KeyAnswered(c: Config, s: State, q: Packet, t: State, a: Packet)
    requires Keymap(c).Within(|s.ram|) && |t.ram| == |s.ram|
  {
    var layer, row, column := q[1] as nat, q[2] as nat, q[3] as nat;
    if q[0] == 0x04 then
      && t == s && a[..4] == q[..4] && a[6..] == q[6..]
      && Cell(a[5], a[4]) == KeyAt(c, s.ram, layer, row, column)
    else if OnBoard(c, layer, row, column) then
      && t.dirty && a == q && OnlyIn(Region(KeyAddress(c, layer, row, column), 2), s, t)
      && KeyAt(c, t.ram, layer, row, column) == Cell(q[5], q[4])
    else
      t == s && a[0] == 0xFF
  }

  /** Commands 0x12 and 0x13: a stretch of the flat keymap. */
  predicate BulkAnswered(c: Config, s: State, q: Packet, t: State, a: Packet)
    requires Keymap(c).Within(|s.ram|) && |t.ram| == |s.ram|
  {
    if q[0] == 0x12 then
      && t == s && a[..4] == q[..4] && a[4 + Amount(q)..] == q[4 + Amount(q)..]
      && a[4..4 + Amount(q)] == Excerpt(FlatKeymap(c, s.ram), Offset(q), Amount(q))
    else
      && a == q && OnlyIn(Keymap(c), s, t)
      && FlatKeymap(c, t.ram) == Overwritten(FlatKeymap(c, s.ram), Offset(q), Data(q))
      && t.dirty == (s.dirty || (Amount(q) > 0 && Offset(q) < KeymapBytes(c)))
  }

  /** Command 0x06: keymap and encoder map back to their defaults, nothing else. */
  predicate KeymapWasReset(c: Config, s: State, t: State)
    requires Mapped(c, |s.ram|) && |t.ram| == |s.ram|
  {
    && t.dirty && t.options == s.options && t.custom == s.custom
    && Slice(t.ram, Keymap(c)) == Slice(s.ram, DefaultKeymap(c))
    && Slice(t.ram, EncoderMap(c)) == Slice(s.ram, DefaultEncoderMap(c))
    && (forall k :: 0 <= k < |s.ram| && !Keymap(c).Has(k) && !EncoderMap(c).Has(k) ==> t.ram[k] == s.ram[k])
  }

  /** The commands on macros and counts. */
  const MACROS: set<byte> := {0x0C, 0x0D, 0x0E, 0x0F, 0x10, 0x11}

  /** Commands 0x0E, 0x0F and 0x10: a stretch of the macro buffer, or all of it zeroed. */
  predicate MacrosAnswered(c: Config, s: State, q: Packet, t: State, a: Packet)
    requires Macros(c).Within(|s.ram|) && |t.ram| == |s.ram|
  {
    if q[0] == 0x0E then
      && t == s && a[..4] == q[..4] && a[4 + Amount(q)..] == q[4 + Amount(q)..]
      && a[4..4 + Amount(q)] == Excerpt(Slice(s.ram, Macros(c)), Offset(q), Amount(q))
    else if q[0] == 0x0F then
      && a == q && OnlyIn(Macros(c), s, t)
      && Slice(t.ram, Macros(c)) == Overwritten(Slice(s.ram, Macros(c)), Offset(q), Data(q))
      && t.dirty == (s.dirty || (Amount(q) > 0 && Offset(q) < c.macroBytes))
    else if q[0] == 0x10 then
      && a == q && OnlyIn(Macros(c), s, t)
      && t.dirty && Slice(t.ram, Macros(c)) == Fill(c.macroBytes, 0)
    else
      && t == s
      && (q[0] == 0x0C ==> a == q[1 := a[1]] && a[1] as nat == c.macroCount)
      && (q[0] == 0x0D ==> a == q[1 := a[1]][2 := a[2]] && 256 * (a[1] as nat) + a[2] as nat == c.macroBytes)
      && (q[0] == 0x11 ==> a == q[1 := a[1]] && a[1] as nat == c.layers)
  }

  /** Commands 0x14 and 0x15: one direction of one encoder. */
  predicate EncoderAnswered(c: Config, s: State, q: Packet, t: State, a: Packet)
    requires EncoderMap(c).Within(|s.ram|) && |t.ram| == |s.ram|
  {
    var l, e, d := q[1] as nat, q[2] as nat, q[3] as nat;
    if !HasEncoder(c, l, e, d) then t == s && a[0] == 0xFF
    else
      EncoderInside(c, l, e, d);
      if q[0] == 0x14 then
        && t == s && a[..4] == q[..4] && a[6..] == q[6..]
        && Cell(a[5], a[4]) == CellAt(s.ram, EncoderAddress(c, l, e, d))
      else
        && t.dirty && a == q && OnlyIn(Region(EncoderAddress(c, l, e, d), 2), s, t)
        && CellAt(t.ram, EncoderAddress(c, l, e, d)) == Cell(q[5], q[4])
  }

  /** The values a host may read with command 0x02. */
  const VALUES: set<byte> := {0x01, 0x02, 0x03, 0x04, 0x06}

  /** Bytes 2 to 5 are the reply. */
  predicate FourReplied(q: Packet, a: Packet) {
    a[..2] == q[..2] && a[6..] == q[6..]
  }

  /** The milliseconds since power-up, big-endian. */
  predicate UptimeAnswered(q: Packet, a: Packet, nowMs: uint32) {
    q[0] == 0x02 && q[1] == 0x01 ==>
      && FourReplied(q, a)
      && nowMs == a[5] as nat + 0x100 * (a[4] as nat) + 0x1_0000 * (a[3] as nat) + 0x100_0000 * (a[2] as nat)
  }

  /** The layout options, read or set big-endian, and other values; unknown ones are refused. */
  predicate OptionsAnswered(c: Config, s: State, q: Packet, t: State, a: Packet) {
    if q[0] == 0x02 then
      && t == s && (q[1] == 0x02 ==> FourReplied(q, a) && Word(a[5], a[4], a[3], a[2]) == s.options)
      && (q[1] == 0x03 ==> if 0 < c.columns <= 32 then a[..3] == q[..3] else a == q[0 := 0xFF])
      && (q[1] == 0x04 ==> FourReplied(q, a) && Word(a[5], a[4], a[3], a[2]) == c.firmwareVersion)
      && (q[1] == 0x06 ==> FourReplied(q, a) && a[2..6] == [0, 0, 0, 8])
      && (q[1] !in VALUES ==> a == q[0 := 0xFF])
    else if q[1] == 0x02 then t == s.(options := Word(q[5], q[4], q[3], q[2]), dirty := true) && a == q
    else if q[1] == 0x05 then t == s && a == q
    else t == s && a[0] == 0xFF
  }

  /** Command 0x07: a handler that takes the value changes custom state alone, and then the
      state is dirty; a refusal changes nothing. */
  predicate CustomAnswered(s: State, q: Packet, t: State, a: Packet) {
    if a[0] == 0xFF then t == s else a[0] == q[0] && t == s.(custom := t.custom, dirty := true)
  }

  /** Commands 0x09, 0x0A and 0x0B reply the request or refuse it; only a reset changes more
      than whether the state is dirty, and only a success does that. */
  predicate StoredAnswered(s: State, q: Packet, t: State, a: Packet) {
    && (a == q || a == q[0 := 0xFF])
    && (q[0] != 0x0A ==> t == s.(dirty := t.dirty))
    && (t.dirty != s.dirty ==> a == q && !t.dirty)
  }

  const VERSION: byte := 0x0D

  /** The opcodes that are commands. */
  predicate Known(opcode: byte) { 0x01 <= opcode <= 0x15 }

  /** What any request means. */
  predicate Answered(c: Config, s: State, q: Packet, t: State, a: Packet)
    requires Mapped(c, |s.ram|) && |t.ram| == |s.ram|
  {
    && (q[0] in {0x04, 0x05} ==> KeyAnswered(c, s, q, t, a))
    && (q[0] in {0x12, 0x13} ==> BulkAnswered(c, s, q, t, a))
    && (q[0] == 0x06 ==> KeymapWasReset(c, s, t) && a == q)
    && (q[0] in MACROS ==> MacrosAnswered(c, s, q, t, a))
    && (q[0] in {0x14, 0x15} ==> EncoderAnswered(c, s, q, t, a))
    && (q[0] in {0x02, 0x03} ==> OptionsAnswered(c, s, q, t, a))
    && (q[0] == 0x01 ==> t == s && a == q[1 := 0][2 := VERSION])
    && (q[0] == 0x07 ==> CustomAnswered(s, q, t, a))
    && (q[0] == 0x08 ==> t == s && a[0] in {q[0], 0xFF})
    && (q[0] in {0x09, 0x0A, 0x0B} ==> StoredAnswered(s, q, t, a))
    && (!Known(q[0]) ==> t == s && a == q[0 := 0xFF])
  }

  lemma KeyIsStored(c: Config, s: State, q: Packet, t: State, value: bv16)
    requires Keymap(c).Within(|s.ram|) && |t.ram| == |s.ram| && q[0] == 0x05 && value == Cell(q[5], q[4])
    requires OnBoard(c, q[1] as nat, q[2] as nat, q[3] as nat) && t.dirty
    requires OnlyIn(Region(KeyAddress(c, q[1] as nat, q[2] as nat, q[3] as nat), 2), s, t)
    requires KeyAt(c, t.ram, q[1] as nat, q[2] as nat, q[3] as nat) == value
    ensures KeyAnswered(c, s, q, t, q)
  {
    hide KeyAt, KeyAddress, Cell, OnlyIn;
  }

  lemma KeyIsRefused(c: Config, s: State, q: Packet, a: Packet)
    requires Keymap(c).Within(|s.ram|) && q[0] == 0x05 && !OnBoard(c, q[1] as nat, q[2] as nat, q[3] as nat)
    requires a[0] == 0xFF
    ensures KeyAnswered(c, s, q, s, a)
  {
    hide KeyAt, KeyAddress, Cell, OnlyIn;
  }

  /** The requests that change what a save records, and so restart the time to the next
      one: with their replies, since some are refused. */
  predicate Edits(c: Config, q: Packet, a: Packet) {
    var at := 256 * (q[1] as nat) + q[2] as nat;
    match q[0]
    case 0x03 => q[1] == 0x02
    case 0x05 => a[0] != 0xFF
    case 0x06 => true
    case 0x07 => a[0] != 0xFF
    case 0x0F => q[3] > 0 && at < c.macroBytes
    case 0x10 => true
    case 0x13 => q[3] > 0 && at < KeymapBytes(c)
    case 0x15 => a[0] != 0xFF
    case _ => false
  }

  /** An edit leaves the state dirty, and no other request makes it so. */
  lemma EditsDirty(c: Config, s: State, q: Packet, t: State, a: Packet)
    requires Mapped(c, |s.ram|) && |t.ram| == |s.ram| && Answered(c, s, q, t, a)
    ensures if Edits(c, q, a) then t.dirty else t.dirty ==> s.dirty
  {
    hide KeymapBytes, EncoderMapBytes, CellIndex, KeyAt, KeyAddress, Cell, CellAt, OnlyIn, FlatKeymap, Excerpt,
         Overwritten, Slice, EncoderAddress, Word, Mapped;
    if !(0x01 <= q[0] <= 0x15) {
      assert t == s;
    }
  }

  // ----- what follows across commands

  /** Setting one key leaves every other key, every encoder, the macros and the options. */
  lemma KeyAlone(c: Config, s: State, q: Packet, t: State, a: Packet, l: uint8, r: uint8, k: uint8)
    requires Mapped(c, |s.ram|) && Separate(c) && |t.ram| == |s.ram|
    requires q[0] == 0x05 && KeyAnswered(c, s, q, t, a) && OnBoard(c, l, r, k)
    requires (l, r, k) != (q[1] as nat, q[2] as nat, q[3] as nat)
    ensures KeyAt(c, t.ram, l, r, k) == KeyAt(c, s.ram, l, r, k)
    ensures Slice(t.ram, EncoderMap(c)) == Slice(s.ram, EncoderMap(c))
            && Slice(t.ram, Macros(c)) == Slice(s.ram, Macros(c))
    ensures t.options == s.options
  {
    hide KeymapBytes, EncoderMapBytes, CellIndex, Cell;
    CellInside(c, l, r, k);
    if OnBoard(c, q[1] as nat, q[2] as nat, q[3] as nat) {
      CellInside(c, q[1] as nat, q[2] as nat, q[3] as nat);
      CellsInjective(c, q[1] as nat, q[2] as nat, q[3] as nat, l, r, k);
    }
  }

  lemma EncodersInjective(c: Config, l: nat, e: nat, d: nat, l': nat, e': nat, d': nat)
    requires HasEncoder(c, l, e, d) && HasEncoder(c, l', e', d')
    requires Place(l, c.encoderCount, e) * 2 + d == Place(l', c.encoderCount, e') * 2 + d'
    ensures l == l' && e == e' && d == d'
  {
    hide Place;
    PlaceUnique(c.encoderCount, l, e, l', e');
  }

  /** Setting one encoder direction leaves every other, the keymap, the macros and the options. */
  lemma EncoderAlone(c: Config, s: State, q: Packet, t: State, a: Packet, l: nat, e: nat, d: nat)
    requires Mapped(c, |s.ram|) && Separate(c) && |t.ram| == |s.ram|
    requires q[0] == 0x15 && EncoderAnswered(c, s, q, t, a) && HasEncoder(c, l, e, d)
    requires (l, e, d) != (q[1] as nat, q[2] as nat, q[3] as nat)
    ensures EncoderAddress(c, l, e, d) + 2 <= |s.ram|
    ensures CellAt(t.ram, EncoderAddress(c, l, e, d)) == CellAt(s.ram, EncoderAddress(c, l, e, d))
    ensures Slice(t.ram, Keymap(c)) == Slice(s.ram, Keymap(c)) && Slice(t.ram, Macros(c)) == Slice(s.ram, Macros(c))
    ensures t.options == s.options
  {
    hide KeymapBytes, EncoderMapBytes, Place, Cell;
    EncoderInside(c, l, e, d);
    var l', e', d' := q[1] as nat, q[2] as nat, q[3] as nat;
    if HasEncoder(c, l', e', d') {
      EncoderInside(c, l', e', d');
      if Place(l, c.encoderCount, e) * 2 + d == Place(l', c.encoderCount, e') * 2 + d' {
        EncodersInjective(c, l, e, d, l', e', d');
      }
    }
  }

  /** A key's code is two neighbouring bytes of the flat keymap, high byte first. */
  lemma KeyInFlat(c: Config, ram: Block, layer: nat, row: nat, column: nat)
    requires Keymap(c).Within(|ram|) && OnBoard(c, layer, row, column)
    ensures var i := 2 * CellIndex(c, layer, row, column);
            i + 2 <= KeymapBytes(c)
            && KeyAt(c, ram, layer, row, column) == Cell(FlatKeymap(c, ram)[i + 1], FlatKeymap(c, ram)[i])
  {
    hide KeymapBytes, CellIndex, Cell;
    CellInside(c, layer, row, column);
  }

  lemma ReadsBack(f: Block, offset: nat, data: Block)
    ensures Excerpt(Overwritten(f, offset, data), offset, |data|)
            == seq(|data|, i requires 0 <= i < |data| => if offset + i < |f| then data[i] else 0)
  {
  }

  lemma SameRange(q: Packet, q': Packet)
    requires q'[1..4] == q[1..4]
    ensures Offset(q') == Offset(q) && Amount(q') == Amount(q)
  {
    assert q'[1] == q'[1..4][0] && q'[2] == q'[1..4][1] && q'[3] == q'[1..4][2];
  }

  /** A bulk write is read back: the reply repeats what was written as far as the keymap
      reaches, and is zero beyond. */
  lemma BulkRoundTrip(c: Config, s: State, q: Packet, t: State, a: Packet, q': Packet, a': Packet)
    requires Keymap(c).Within(|s.ram|) && |t.ram| == |s.ram|
    requires q[0] == 0x13 && BulkAnswered(c, s, q, t, a)
    requires q'[0] == 0x12 && q'[1..4] == q[1..4] && BulkAnswered(c, t, q', t, a')
    ensures a'[4..4 + Amount(q)]
            == seq(Amount(q), i requires 0 <= i < Amount(q) => if Offset(q) + i < KeymapBytes(c) then Data(q)[i] else 0)
  {
    hide KeymapBytes, FlatKeymap, Offset, Amount, Overwritten, Excerpt;
    SameRange(q, q');
    ReadsBack(FlatKeymap(c, s.ram), Offset(q), Data(q));
  }

  lemma RangeIs(q: Packet)
    ensures Offset(q) == 256 * (q[1] as nat) + q[2] as nat
    ensures Amount(q) == if q[3] as nat > 28 then 28 else q[3] as nat
  {
  }

  lemma IndexIs(c: Config, layer: nat, row: nat, column: nat)
    ensures CellIndex(c, layer, row, column) == (layer * c.rows + row) * c.columns + column
  {
  }

  lemma KeyIsRange(c: Config, s: State, q: Packet, t: State, a: Packet, layer: nat, row: nat, column: nat)
    requires Keymap(c).Within(|s.ram|) && |t.ram| == |s.ram| && OnBoard(c, layer, row, column)
    requires BulkAnswered(c, s, q, t, a) && Offset(q) == 2 * CellIndex(c, layer, row, column) && Amount(q) == 2
    ensures q[0] == 0x12 ==> Cell(a[5], a[4]) == KeyAt(c, s.ram, layer, row, column)
    ensures q[0] == 0x13 ==>
              t.dirty && forall l: uint8, r: uint8, k: uint8 :: OnBoard(c, l, r, k) ==>
                KeyAt(c, t.ram, l, r, k)
                == if l == layer && r == row && k == column then Cell(q[5], q[4]) else KeyAt(c, s.ram, l, r, k)
  {
    hide KeymapBytes, CellIndex, Cell, FlatKeymap, KeyAt, Offset;
    KeyInFlat(c, s.ram, layer, row, column);
    if q[0] == 0x12 {
      assert a[4] == a[4..6][0] && a[5] == a[4..6][1];
    }
    if q[0] == 0x13 {
      assert Data(q)[0] == q[4] && Data(q)[1] == q[5];
      forall l: uint8, r: uint8, k: uint8 | OnBoard(c, l, r, k)
        ensures KeyAt(c, t.ram, l, r, k)
                == if l == layer && r == row && k == column then Cell(q[5], q[4]) else KeyAt(c, s.ram, l, r, k)
      {
        KeyInFlat(c, s.ram, l, r, k);
        KeyInFlat(c, t.ram, l, r, k);
        CellsInjective(c, layer, row, column, l, r, k);
      }
    }
  }

  /** Setting one key is the two-byte bulk write at its place, and reading it is the
      two-byte bulk read: both commands address the same cells. */
  lemma KeyIsBulk(c: Config, s: State, q: Packet, t: State, a: Packet, layer: nat, row: nat, column: nat)
    requires Keymap(c).Within(|s.ram|) && |t.ram| == |s.ram| && OnBoard(c, layer, row, column)
    requires BulkAnswered(c, s, q, t, a) && q[3] == 2
    requires 256 * (q[1] as nat) + q[2] as nat == 2 * ((layer * c.rows + row) * c.columns + column)
    ensures q[0] == 0x12 ==> Cell(a[5], a[4]) == KeyAt(c, s.ram, layer, row, column)
    ensures q[0] == 0x13 ==>
              t.dirty && forall l: uint8, r: uint8, k: uint8 :: OnBoard(c, l, r, k) ==>
                KeyAt(c, t.ram, l, r, k)
                == if l == layer && r == row && k == column then Cell(q[5], q[4]) else KeyAt(c, s.ram, l, r, k)
  {
    hide KeymapBytes, CellIndex, Cell, FlatKeymap, KeyAt, Offset, Amount, BulkAnswered;
    IndexIs(c, layer, row, column);
    RangeIs(q);
    KeyIsRange(c, s, q, t, a, layer, row, column);
  }
}
