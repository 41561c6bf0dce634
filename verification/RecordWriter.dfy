/** Staging a state record in a storage adapter: the header without its checksum, the
    payload piece by piece, then the final header over the first. */
module RecordWriter {
  import opened Bytes
  import opened Backends
  import opened StateRecord

  lemma SpliceHead(s: Block, h: Block, h': Block, rest: Block)
    requires |h| == |h'| && |h| + |rest| <= |s|
    ensures Splice(Splice(s, 0, h + rest), 0, h') == Splice(s, 0, h' + rest)
  {
  }

  /** Stages one more block behind what is done. */
  method WriteNext(st: Storage, ghost base: Block, ghost done: Block, offset: nat, data: Block) returns (ok: bool)
    requires st.Valid()
    requires offset == |done| && offset + |data| <= |base| == st.Size()
    requires st.Contents() == Splice(base, 0, done)
    modifies st.Buffer()
    ensures st.Valid() && st.Durable() == old(st.Durable())
    ensures ok && st.Contents() == Splice(base, 0, done + data)
  {
    ok := true;
    if |data| != 0 {
      ok := st.Write(offset, data);
      SpliceTwice(base, 0, done, data);
    } else {
      assert done + data == done;
    }
  }

  method StageRecord(st: Storage, bytes: nat, crc: bv32, keymap: Block, encoders: Block, macros: Block,
                     options: Block, customState: Block) returns (ok: bool)
    requires st.Valid()
    requires bytes == |keymap| + |encoders| + |macros| + |options| + |customState| < 0x1_0000
    requires STATE_HEADER + bytes <= st.Size()
    modifies st.Buffer()
    ensures ok && st.Valid() && st.Durable() == old(st.Durable())
    ensures st.Contents() == Splice(old(st.Contents()), 0,
                                    HeaderBytes(bytes, crc) + (keymap + encoders + macros + options + customState))
  {
    hide HeaderBytes, Splice;
    ghost var base := st.Contents();
    var header := HeaderBytes(bytes, 0);
    ok := st.Write(0, header);
    var offset := STATE_HEADER;
    ghost var done := header;
    ok := WriteNext(st, base, done, offset, keymap);
    done, offset := done + keymap, offset + |keymap|;
    ok := WriteNext(st, base, done, offset, encoders);
    done, offset := done + encoders, offset + |encoders|;
    ok := WriteNext(st, base, done, offset, macros);
    done, offset := done + macros, offset + |macros|;
    ok := WriteNext(st, base, done, offset, options);
    done, offset := done + options, offset + |options|;
    ok := WriteNext(st, base, done, offset, customState);
    done := done + customState;
    ghost var payload := keymap + encoders + macros + options + customState;
    assert done == header + payload;
    header := HeaderBytes(bytes, crc);
    ok := st.Write(0, header);
    SpliceHead(base, HeaderBytes(bytes, 0), header, payload);
  }

  /** A whole payload staged in one piece, as a factory reset does. */
  method StageWhole(st: Storage, payload: Block, crc: bv32) returns (ok: bool)
    requires st.Valid()
    requires |payload| < 0x1_0000 && STATE_HEADER + |payload| <= st.Size()
    modifies st.Buffer()
    ensures ok && st.Valid() && st.Durable() == old(st.Durable())
    ensures st.Contents() == Splice(old(st.Contents()), 0, HeaderBytes(|payload|, crc) + payload)
  {
    hide HeaderBytes, Splice;
    ghost var base := st.Contents();
    var header := HeaderBytes(|payload|, 0);
    ok := st.Write(0, header);
    ok := WriteNext(st, base, header, STATE_HEADER, payload);
    header := HeaderBytes(|payload|, crc);
    ok := st.Write(0, header);
    SpliceHead(base, HeaderBytes(|payload|, 0), header, payload);
  }
}
