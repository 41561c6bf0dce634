/** What requests and replies mean byte by byte, as a host on the other end of the wire
    relies on it: places, lengths and codes decoded from the packet's own bytes. */
module CommandBytes {
  import opened Bytes
  import opened Layout
  import opened KeymapAccess
  import opened Places
  import opened Commands

  /** Memory byte of flat keymap byte `i`: cells stand low byte first in memory and high
      byte first on the wire. */
  function KeymapByte(c: Config, i: nat): nat {
    c.keymap + if i % 2 == 0 then i + 1 else i - 1
  }

  lemma FlatByte(c: Config, ram: Block, k: nat)
    requires Keymap(c).Within(|ram|) && k < KeymapBytes(c)
    ensures KeymapByte(c, k) < |ram| && FlatKeymap(c, ram)[k] == ram[KeymapByte(c, k)]
  {
    EvenKeymap(c);
    hide KeymapBytes;
  }

  /** A reply that carries a stretch of `f` behind the echoed request and echoes the rest. */
  lemma StretchRead(f: Block, q: Packet, a: Packet, i: nat)
    requires a[4..4 + Amount(q)] == Excerpt(f, Offset(q), Amount(q))
    requires a[4 + Amount(q)..] == q[4 + Amount(q)..] && i < 28
    ensures var k := 256 * (q[1] as nat) + q[2] as nat + i;
            a[4 + i] == if i >= q[3] as nat then q[4 + i] else if k < |f| then f[k] else 0
  {
    var n := Amount(q);
    if i < n {
      assert a[4..4 + n][i] == a[4 + i];
    } else {
      assert a[4 + n..][i - n] == a[4 + i] && q[4 + n..][i - n] == q[4 + i];
    }
  }

  /** 0x12: reply byte 4 + i is flat keymap byte 256 * q[1] + q[2] + i, zero beyond the
      keymap's end; at most 28 are asked for, and the rest of the packet is echoed. */
  lemma BulkRead(c: Config, s: State, q: Packet, t: State, a: Packet, i: nat)
    requires Keymap(c).Within(|s.ram|) && |t.ram| == |s.ram|
    requires q[0] == 0x12 && BulkAnswered(c, s, q, t, a) && i < 28
    ensures t == s && a[..4] == q[..4]
    ensures var k := 256 * (q[1] as nat) + q[2] as nat + i;
            && (k < KeymapBytes(c) ==> KeymapByte(c, k) < |s.ram|)
            && a[4 + i] == if i >= q[3] as nat then q[4 + i]
                           else if k < KeymapBytes(c) then s.ram[KeymapByte(c, k)] else 0
  {
    hide KeymapBytes, FlatKeymap, Offset, Amount, KeymapByte, Excerpt;
    StretchRead(FlatKeymap(c, s.ram), q, a, i);
    var k := 256 * (q[1] as nat) + q[2] as nat + i;
    if k < KeymapBytes(c) {
      FlatByte(c, s.ram, k);
    }
  }

  /** 0x13: exactly the flat bytes from 256 * q[1] + q[2] on, at most 28 and as far as the
      keymap reaches, become q[4], q[5], and so on. */
  lemma BulkWrite(c: Config, s: State, q: Packet, t: State, a: Packet, k: nat)
    requires Keymap(c).Within(|s.ram|) && |t.ram| == |s.ram|
    requires q[0] == 0x13 && BulkAnswered(c, s, q, t, a) && k < KeymapBytes(c)
    ensures KeymapByte(c, k) < |s.ram|
    ensures var at := 256 * (q[1] as nat) + q[2] as nat;
            t.ram[KeymapByte(c, k)] == if at <= k < at + 28 && k - at < q[3] as nat then q[4 + (k - at)]
                                       else s.ram[KeymapByte(c, k)]
  {
    hide KeymapBytes, FlatKeymap, Offset, Amount, KeymapByte;
    RangeIs(q);
    FlatByte(c, t.ram, k);
    FlatByte(c, s.ram, k);
  }

  /** 0x0E: the same on the macro buffer. */
  lemma MacroRead(c: Config, s: State, q: Packet, t: State, a: Packet, i: nat)
    requires Macros(c).Within(|s.ram|) && |t.ram| == |s.ram|
    requires q[0] == 0x0E && MacrosAnswered(c, s, q, t, a) && i < 28
    ensures t == s && a[..4] == q[..4]
    ensures var k := 256 * (q[1] as nat) + q[2] as nat + i;
            a[4 + i] == if i >= q[3] as nat then q[4 + i]
                        else if k < c.macroBytes then s.ram[c.macros + k] else 0
  {
    hide Offset, Amount, Excerpt;
    StretchRead(Slice(s.ram, Macros(c)), q, a, i);
  }

  /** 0x0F: the same on the macro buffer. */
  lemma MacroWrite(c: Config, s: State, q: Packet, t: State, a: Packet, k: nat)
    requires Macros(c).Within(|s.ram|) && |t.ram| == |s.ram|
    requires q[0] == 0x0F && MacrosAnswered(c, s, q, t, a) && k < c.macroBytes
    ensures var at := 256 * (q[1] as nat) + q[2] as nat;
            t.ram[c.macros + k] == if at <= k < at + 28 && k - at < q[3] as nat then q[4 + (k - at)]
                                   else s.ram[c.macros + k]
  {
    assert Slice(t.ram, Macros(c))[k] == t.ram[c.macros + k] && Slice(s.ram, Macros(c))[k] == s.ram[c.macros + k];
  }

  /** Where a key's cell stands in memory. */
  lemma KeyPlace(c: Config, layer: nat, row: nat, column: nat, limit: nat)
    requires Keymap(c).Within(limit) && layer < c.layers && row < c.rows && column < c.columns
    ensures KeyAddress(c, layer, row, column) == c.keymap + 2 * ((layer * c.rows + row) * c.columns + column)
    ensures KeyAddress(c, layer, row, column) + 2 <= limit
  {
    hide KeymapBytes;
    CellInside(c, layer, row, column);
    IndexIs(c, layer, row, column);
  }

  /** A code and its two bytes. */
  lemma CodeBytes(code: bv16)
    ensures Cell((code & 0xFF) as byte, (code >> 8) as byte) == code
    ensures LowByte(code) as bv16 == code & 0xFF && HighByte(code) as bv16 == code >> 8
  {
  }

  lemma CellSplits(low: byte, high: byte, low': byte, high': byte)
    ensures Cell(low, high) == Cell(low', high') <==> low == low' && high == high'
    ensures Cell(low, high) == 0 <==> low == 0 && high == 0
  {
    CellBytes(low, high);
    CellBytes(low', high');
  }

  /** 0x04: a[4] and a[5] are the high and the low byte of the key at layer q[1], row q[2]
      and column q[3], or zeros off the board. */
  lemma KeyRead(c: Config, s: State, q: Packet, t: State, a: Packet)
    requires Keymap(c).Within(|s.ram|) && |t.ram| == |s.ram|
    requires q[0] == 0x04 && KeyAnswered(c, s, q, t, a)
    ensures t == s && a[..4] == q[..4] && a[6..] == q[6..]
    ensures var l, r, k := q[1] as nat, q[2] as nat, q[3] as nat;
            if l < c.layers && r < c.rows && k < c.columns then
              var at := KeyAddress(c, l, r, k);
              at == c.keymap + 2 * ((l * c.rows + r) * c.columns + k)
              && at + 2 <= |s.ram| && a[4] == s.ram[at + 1] && a[5] == s.ram[at]
            else a[4] == 0 && a[5] == 0
  {
    hide KeymapBytes, Cell, CellIndex, KeyAddress;
    var l, r, k := q[1] as nat, q[2] as nat, q[3] as nat;
    if l < c.layers && r < c.rows && k < c.columns {
      KeyPlace(c, l, r, k, |s.ram|);
      var at := KeyAddress(c, l, r, k);
      CellSplits(a[5], a[4], s.ram[at], s.ram[at + 1]);
    } else {
      CellSplits(a[5], a[4], 0, 0);
    }
  }

  /** 0x05: the two bytes of that key become q[5] and q[4], or the request is refused. */
  lemma KeyWrite(c: Config, s: State, q: Packet, t: State, a: Packet)
    requires Keymap(c).Within(|s.ram|) && |t.ram| == |s.ram|
    requires q[0] == 0x05 && KeyAnswered(c, s, q, t, a)
    ensures var l, r, k := q[1] as nat, q[2] as nat, q[3] as nat;
            if l < c.layers && r < c.rows && k < c.columns then
              var at := KeyAddress(c, l, r, k);
              && at == c.keymap + 2 * ((l * c.rows + r) * c.columns + k)
              && at + 2 <= |s.ram| && t.ram[at] == q[5] && t.ram[at + 1] == q[4] && t.dirty && a == q
              && forall i :: 0 <= i < |s.ram| && i != at && i != at + 1 ==> t.ram[i] == s.ram[i]
            else t == s && a[0] == 0xFF
  {
    hide KeymapBytes, Cell, CellIndex, KeyAddress;
    var l, r, k := q[1] as nat, q[2] as nat, q[3] as nat;
    if l < c.layers && r < c.rows && k < c.columns {
      KeyPlace(c, l, r, k, |s.ram|);
      var at := KeyAddress(c, l, r, k);
      CellSplits(q[5], q[4], t.ram[at], t.ram[at + 1]);
    }
  }

  lemma EncoderPlace(c: Config, l: nat, e: nat, d: nat, limit: nat)
    requires EncoderMap(c).Within(limit) && l < c.layers && e < c.encoderCount && d < 2
    ensures EncoderAddress(c, l, e, d) == c.encoderMap + 2 * ((l * c.encoderCount + e) * 2 + d)
    ensures EncoderAddress(c, l, e, d) + 2 <= limit
  {
    hide EncoderMapBytes;
    EncoderInside(c, l, e, d);
  }

  /** 0x14: the code of layer q[1], encoder q[2] and direction q[3], high byte first. */
  lemma EncoderRead(c: Config, s: State, q: Packet, t: State, a: Packet)
    requires EncoderMap(c).Within(|s.ram|) && |t.ram| == |s.ram|
    requires q[0] == 0x14 && EncoderAnswered(c, s, q, t, a)
    ensures t == s
    ensures var l, e, d := q[1] as nat, q[2] as nat, q[3] as nat;
            if l < c.layers && e < c.encoderCount && d < 2 then
              var at := EncoderAddress(c, l, e, d);
              && at == c.encoderMap + 2 * ((l * c.encoderCount + e) * 2 + d)
              && at + 2 <= |s.ram| && a[4] == s.ram[at + 1] && a[5] == s.ram[at]
              && a[..4] == q[..4] && a[6..] == q[6..]
            else a[0] == 0xFF
  {
    hide EncoderMapBytes, Cell, EncoderAddress;
    var l, e, d := q[1] as nat, q[2] as nat, q[3] as nat;
    if l < c.layers && e < c.encoderCount && d < 2 {
      EncoderPlace(c, l, e, d, |s.ram|);
      var at := EncoderAddress(c, l, e, d);
      CellSplits(a[5], a[4], s.ram[at], s.ram[at + 1]);
    }
  }

  /** 0x15: its two bytes become q[5] and q[4], or the request is refused. */
  lemma EncoderWrite(c: Config, s: State, q: Packet, t: State, a: Packet)
    requires EncoderMap(c).Within(|s.ram|) && |t.ram| == |s.ram|
    requires q[0] == 0x15 && EncoderAnswered(c, s, q, t, a)
    ensures var l, e, d := q[1] as nat, q[2] as nat, q[3] as nat;
            if l < c.layers && e < c.encoderCount && d < 2 then
              var at := EncoderAddress(c, l, e, d);
              && at == c.encoderMap + 2 * ((l * c.encoderCount + e) * 2 + d)
              && at + 2 <= |s.ram| && t.ram[at] == q[5] && t.ram[at + 1] == q[4] && t.dirty && a == q
              && forall i :: 0 <= i < |s.ram| && i != at && i != at + 1 ==> t.ram[i] == s.ram[i]
            else t == s && a[0] == 0xFF
  {
    hide EncoderMapBytes, Cell, EncoderAddress;
    var l, e, d := q[1] as nat, q[2] as nat, q[3] as nat;
    if l < c.layers && e < c.encoderCount && d < 2 {
      EncoderPlace(c, l, e, d, |s.ram|);
      var at := EncoderAddress(c, l, e, d);
      CellSplits(q[5], q[4], t.ram[at], t.ram[at + 1]);
    }
  }

  /** 0x01, and layout options in 0x02 and 0x03: version 13, and the option word highest
      byte first. */
  lemma ValueBytes(c: Config, s: State, q: Packet, t: State, a: Packet)
    requires Mapped(c, |s.ram|) && |t.ram| == |s.ram| && Answered(c, s, q, t, a)
    ensures q[0] == 0x01 ==> t == s && a[0] == 0x01 && a[1] == 0x00 && a[2] == 0x0D && a[3..] == q[3..]
    ensures q[0] == 0x02 && q[1] == 0x02 ==>
              t == s && s.options == (a[5] as bv32) | ((a[4] as bv32) << 8) | ((a[3] as bv32) << 16)
                                     | ((a[2] as bv32) << 24)
    ensures q[0] == 0x02 && q[1] == 0x04 ==>
              t == s && c.firmwareVersion == (a[5] as bv32) | ((a[4] as bv32) << 8) | ((a[3] as bv32) << 16)
                                             | ((a[2] as bv32) << 24)
    ensures q[0] == 0x03 && q[1] == 0x02 ==>
              t.options == (q[5] as bv32) | ((q[4] as bv32) << 8) | ((q[3] as bv32) << 16) | ((q[2] as bv32) << 24)
              && t.ram == s.ram && t.custom == s.custom && t.dirty && a == q
  {
    hide KeyAnswered, BulkAnswered, KeymapWasReset, MacrosAnswered, EncoderAnswered, Mapped;
  }

  /** 0x06: keymap and encoder map byte for byte as built in, macros as they were. */
  lemma KeymapReset(c: Config, s: State, t: State, k: nat)
    requires Mapped(c, |s.ram|) && Separate(c) && |t.ram| == |s.ram| && KeymapWasReset(c, s, t)
    ensures k < KeymapBytes(c) ==> t.ram[c.keymap + k] == s.ram[c.defaultKeymap + k]
    ensures k < EncoderMapBytes(c) ==> t.ram[c.encoderMap + k] == s.ram[c.defaultEncoderMap + k]
    ensures k < c.macroBytes ==> t.ram[c.macros + k] == s.ram[c.macros + k]
  {
    hide KeymapBytes, EncoderMapBytes;
    assert k < KeymapBytes(c) ==> Slice(t.ram, Keymap(c))[k] == Slice(s.ram, DefaultKeymap(c))[k];
    assert k < EncoderMapBytes(c) ==> Slice(t.ram, EncoderMap(c))[k] == Slice(s.ram, DefaultEncoderMap(c))[k];
  }

  /** 0x10: macros zero, the keymap as it was. */
  lemma MacroReset(c: Config, s: State, q: Packet, t: State, a: Packet, k: nat)
    requires Mapped(c, |s.ram|) && Separate(c) && |t.ram| == |s.ram|
    requires q[0] == 0x10 && MacrosAnswered(c, s, q, t, a)
    ensures k < c.macroBytes ==> t.ram[c.macros + k] == 0
    ensures k < KeymapBytes(c) ==> t.ram[c.keymap + k] == s.ram[c.keymap + k]
  {
    hide KeymapBytes, EncoderMapBytes;
    if k < c.macroBytes {
      assert Slice(t.ram, Macros(c))[k] == t.ram[c.macros + k];
    }
  }

  /** 0x06 and 0x10 as a host sees them. */
  lemma ResetBytes(c: Config, s: State, q: Packet, t: State, a: Packet, k: nat)
    requires Mapped(c, |s.ram|) && Separate(c) && |t.ram| == |s.ram| && Answered(c, s, q, t, a)
    ensures q[0] in {0x06, 0x10} ==> t.dirty && a == q && t.options == s.options && t.custom == s.custom
    ensures q[0] == 0x06 && k < KeymapBytes(c) ==> t.ram[c.keymap + k] == s.ram[c.defaultKeymap + k]
    ensures q[0] == 0x06 && k < EncoderMapBytes(c) ==> t.ram[c.encoderMap + k] == s.ram[c.defaultEncoderMap + k]
    ensures q[0] == 0x06 && k < c.macroBytes ==> t.ram[c.macros + k] == s.ram[c.macros + k]
    ensures q[0] == 0x10 && k < c.macroBytes ==> t.ram[c.macros + k] == 0
    ensures q[0] == 0x10 && k < KeymapBytes(c) ==> t.ram[c.keymap + k] == s.ram[c.keymap + k]
  {
    hide KeymapBytes, EncoderMapBytes, KeyAnswered, BulkAnswered, EncoderAnswered, OptionsAnswered, Slice, Separate;
    if q[0] == 0x06 {
      KeymapReset(c, s, t, k);
    }
    if q[0] == 0x10 {
      MacroReset(c, s, q, t, a, k);
    }
  }
}
