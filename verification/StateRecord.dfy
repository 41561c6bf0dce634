/** The record in which Protocol keeps its state: a 12-byte header naming magic,
    version, payload size and checksum, followed by the payload. */
module StateRecord {
  import opened Bytes
  import opened Crc32
  import opened Options

  const STATE_MAGIC: uint32 := 0x56494141
  const STATE_VERSION: nat := 2
  const STATE_HEADER: nat := 12

  function HeaderBytes(size: nat, crc: bv32): (r: Block)
    requires size < 0x1_0000
    ensures |r| == STATE_HEADER
  {
    NumberBytes(STATE_MAGIC) + HalfBytes(STATE_VERSION) + HalfBytes(size) + WordBytes(crc)
  }

  function RecordOf(payload: Block): (r: Block)
    requires |payload| < 0x1_0000
    ensures |r| == STATE_HEADER + |payload|
  {
    HeaderBytes(|payload|, Checksum(payload)) + payload
  }

  /** Header fields of stored contents against the size this configuration expects. */
  predicate HeaderAccepts(contents: Block, size: nat)
    requires |contents| >= STATE_HEADER
  {
    NumberAt(contents, 0) == STATE_MAGIC && HalfAt(contents, 4) == STATE_VERSION && HalfAt(contents, 6) == size
  }

  /** The payload a load of `size` bytes accepts from stored contents, if any. */
  function Parse(contents: Block, size: nat): (r: Option<Block>)
    ensures r.Some? ==> |r.value| == size
  {
    if |contents| >= STATE_HEADER + size && HeaderAccepts(contents, size)
       && Checksum(contents[STATE_HEADER..STATE_HEADER + size]) == WordAt(contents, 8)
    then Some(contents[STATE_HEADER..STATE_HEADER + size])
    else None
  }

  /** Checking the header as read and the payload as read is parsing the contents. */
  lemma ParseBySteps(contents: Block, header: Block, payload: Block, size: nat)
    requires STATE_HEADER + size <= |contents|
    requires header == contents[..STATE_HEADER] && payload == contents[STATE_HEADER..STATE_HEADER + size]
    ensures Parse(contents, size)
            == if HeaderAccepts(header, size) && Checksum(payload) == WordAt(header, 8) then Some(payload) else None
  {
    hide Half, Word, Checksum;
  }

  lemma HalfMoves(field: Block, s: Block, at: nat)
    requires |field| == 2 && at + 2 <= |s| && s[at..at + 2] == field
    ensures HalfAt(s, at) == HalfAt(field, 0)
  {
    assert s[at] == field[0] && s[at + 1] == field[1];
  }

  lemma HeaderFields(size: nat, crc: bv32, s: Block)
    requires size < 0x1_0000 && |s| >= STATE_HEADER && s[..STATE_HEADER] == HeaderBytes(size, crc)
    ensures HeaderAccepts(s, size) && WordAt(s, 8) == crc
  {
    hide NumberAt, HalfAt, WordAt, NumberBytes, HalfBytes, WordBytes;
    var h := HeaderBytes(size, crc);
    assert s[0..4] == h[0..4] == NumberBytes(STATE_MAGIC);
    assert s[4..6] == h[4..6] == HalfBytes(STATE_VERSION);
    assert s[6..8] == h[6..8] == HalfBytes(size);
    assert s[8..12] == h[8..12] == WordBytes(crc);
    NumberMoves(NumberBytes(STATE_MAGIC), s, 0);
    HalfMoves(HalfBytes(STATE_VERSION), s, 4);
    HalfMoves(HalfBytes(size), s, 6);
    WordMoves(WordBytes(crc), s, 8);
  }

  /** Whatever was stored before, a saved payload is read back exactly. */
  lemma RoundTrip(before: Block, payload: Block)
    requires |payload| < 0x1_0000 && STATE_HEADER + |payload| <= |before|
    ensures Parse(Splice(before, 0, RecordOf(payload)), |payload|) == Some(payload)
  {
    hide NumberAt, HalfAt, WordAt, Checksum, HeaderAccepts, HeaderBytes;
    var s := Splice(before, 0, RecordOf(payload));
    assert s[0..STATE_HEADER + |payload|] == RecordOf(payload);
    assert s[..STATE_HEADER] == s[0..STATE_HEADER + |payload|][..STATE_HEADER]
           == HeaderBytes(|payload|, Checksum(payload));
    assert s[STATE_HEADER..STATE_HEADER + |payload|] == s[0..STATE_HEADER + |payload|][STATE_HEADER..] == payload;
    HeaderFields(|payload|, Checksum(payload), s);
  }

  /** Stored contents are accepted if and only if they begin with the record of the
      payload they yield. */
  lemma ParsedIsRecord(contents: Block, payload: Block)
    requires |payload| < 0x1_0000
    ensures Parse(contents, |payload|) == Some(payload) <==>
            STATE_HEADER + |payload| <= |contents| && contents[..STATE_HEADER + |payload|] == RecordOf(payload)
  {
    hide NumberAt, HalfAt, WordAt, Checksum, HeaderAccepts, HeaderBytes;
    var n := STATE_HEADER + |payload|;
    if n <= |contents| {
      assert contents[..n] == contents[..STATE_HEADER] + contents[STATE_HEADER..n];
      if contents[..n] == RecordOf(payload) {
        assert contents[..STATE_HEADER] == contents[..n][..STATE_HEADER] == HeaderBytes(|payload|, Checksum(payload));
        assert contents[STATE_HEADER..n] == contents[..n][STATE_HEADER..] == payload;
        HeaderFields(|payload|, Checksum(payload), contents);
      }
      if Parse(contents, |payload|) == Some(payload) {
        HeaderUnique(|payload|, Checksum(payload), contents);
      }
    }
  }

  /** Contents that were accepted, then changed only inside four neighbouring payload
      bytes or only in the header, are never accepted again. */
  lemma DamageRejected(contents: Block, payload: Block, damaged: Block, at: nat)
    requires |payload| < 0x1_0000 && Parse(contents, |payload|) == Some(payload) && |damaged| == |contents|
    requires var n := STATE_HEADER + |payload|;
             || (damaged[..STATE_HEADER] == contents[..STATE_HEADER]
                 && Burst(payload, damaged[STATE_HEADER..n], at))
             || (damaged[..STATE_HEADER] != contents[..STATE_HEADER]
                 && damaged[STATE_HEADER..n] == payload)
    ensures Parse(damaged, |payload|) == None
  {
    hide NumberAt, HalfAt, WordAt, Run, Burst, HeaderBytes;
    var n := STATE_HEADER + |payload|;
    ParsedIsRecord(contents, payload);
    assert contents[..STATE_HEADER] == contents[..n][..STATE_HEADER] == HeaderBytes(|payload|, Checksum(payload));
    if damaged[..STATE_HEADER] == contents[..STATE_HEADER] {
      BurstDetected(ONES, payload, damaged[STATE_HEADER..n], at);
      HeaderFields(|payload|, Checksum(payload), damaged);
      NotInjective(Run(ONES, payload), Run(ONES, damaged[STATE_HEADER..n]));
    } else if HeaderAccepts(damaged, |payload|) && WordAt(damaged, 8) == Checksum(payload) {
      HeaderUnique(|payload|, Checksum(payload), damaged);
    }
  }

  lemma NotInjective(a: bv32, b: bv32)
    ensures !a == !b ==> a == b
  {
  }

  /** The four header fields determine the twelve header bytes. */
  lemma HeaderUnique(size: nat, crc: bv32, s: Block)
    requires size < 0x1_0000 && |s| >= STATE_HEADER
    requires HeaderAccepts(s, size) && WordAt(s, 8) == crc
    ensures s[..STATE_HEADER] == HeaderBytes(size, crc)
  {
    hide NumberAt, HalfAt, WordAt, NumberBytes, HalfBytes, WordBytes;
    NumberUnique(s, 0);
    HalfUnique(s, 4);
    HalfUnique(s, 6);
    WordUnique(s, 8);
    assert s[..STATE_HEADER] == s[0..4] + s[4..6] + s[6..8] + s[8..12];
  }

  lemma WordUnique(s: Block, at: nat)
    requires at + 4 <= |s|
    ensures s[at..at + 4] == WordBytes(WordAt(s, at))
  {
    WordParts(s[at], s[at + 1], s[at + 2], s[at + 3]);
  }

  /** The record byte by byte: "AAIV" in memory order, version 2, the size and the checksum,
      lowest bytes first, and the payload. */
  lemma RecordBytes(payload: Block)
    requires |payload| < 0x1_0000
    ensures var r, n := RecordOf(payload), |payload|;
            && |r| == 12 + n && r[12..] == payload
            && r[..6] == [0x41, 0x41, 0x49, 0x56, 0x02, 0x00]
            && n == r[6] as nat + 0x100 * (r[7] as nat)
            && Checksum(payload)
               == (r[8] as bv32) | ((r[9] as bv32) << 8) | ((r[10] as bv32) << 16) | ((r[11] as bv32) << 24)
  {
    hide NumberBytes, Octet, Checksum, WordBytes;
    NumberUnique([0x41, 0x41, 0x49, 0x56], 0);
    HalfOfBytes(0x02, 0x00);
    var r := RecordOf(payload);
    assert r[6..8] == HalfBytes(|payload|);
    assert r[6] == HalfBytes(|payload|)[0] && r[7] == HalfBytes(|payload|)[1];
    assert r[8..12] == WordBytes(Checksum(payload));
    WordMoves(WordBytes(Checksum(payload)), r, 8);
  }
}
