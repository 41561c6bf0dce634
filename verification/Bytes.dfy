/** Bytes, little-endian words and the block copies the firmware performs on them. */
module Bytes {

  type byte = bv8
  type Block = seq<byte>

  /** Bytes rewritten in place: a rewriting that would change their number does nothing. */
  function Rewritten(f: Block -> Block, b: Block): (r: Block)
    ensures |r| == |b|
  {
    if |f(b)| == |b| then f(b) else b
  }

  /** The word stored at four consecutive little-endian bytes. */
  function Word(b0: byte, b1: byte, b2: byte, b3: byte): bv32 {
    (b0 as bv32) | ((b1 as bv32) << 8) | ((b2 as bv32) << 16) | ((b3 as bv32) << 24)
  }

  function WordAt(s: Block, at: nat): bv32
    requires at + 4 <= |s|
  {
    Word(s[at], s[at + 1], s[at + 2], s[at + 3])
  }

  /** The four little-endian bytes of a 32-bit word. */
  function WordBytes(w: bv32): (r: Block)
    ensures |r| == 4 && WordAt(r, 0) == w
  {
    [(w & 0xFF) as byte, ((w >> 8) & 0xFF) as byte, ((w >> 16) & 0xFF) as byte, ((w >> 24) & 0xFF) as byte]
  }

  /** The byte of a given value. */
  function Octet(n: nat): (b: byte)
    requires n < 256
    ensures b as nat == n
  {
    if n == 0 then 0 else Octet(n - 1) + 1
  }

  /** A length below 2^16 as two little-endian bytes. */
  function HalfBytes(n: nat): (r: Block)
    requires n < 0x1_0000
    ensures |r| == 2 && HalfAt(r, 0) == n
  {
    [Octet(n % 256), Octet(n / 256)]
  }

  function Half(b0: byte, b1: byte): (n: nat)
    ensures n < 0x1_0000
  {
    b0 as nat + 256 * (b1 as nat)
  }

  function HalfAt(s: Block, at: nat): (n: nat)
    requires at + 2 <= |s|
    ensures n < 0x1_0000
  {
    Half(s[at], s[at + 1])
  }

  const WORD_LIMIT: nat := 0x1_0000_0000

  /** A counter or a length below 2^32. */
  type uint32 = n: nat | n < WORD_LIMIT

  /** A 32-bit number as four little-endian bytes. */
  function NumberBytes(n: uint32): (r: Block)
    ensures |r| == 4 && NumberAt(r, 0) == n
  {
    var low, high := HalfBytes(n % 0x1_0000), HalfBytes(n / 0x1_0000);
    low + high
  }

  function NumberAt(s: Block, at: nat): uint32
    requires at + 4 <= |s|
  {
    HalfAt(s, at) + 0x1_0000 * HalfAt(s, at + 2)
  }

  /** 32-bit counters wrap. */
  function Succ(n: uint32): uint32 { if n == WORD_LIMIT - 1 then 0 else n + 1 }

  function Pred(n: uint32): uint32 { if n == 0 then WORD_LIMIT - 1 else n - 1 }

  /** Serial number comparison of section 3.2 of RFC 1982: the signed difference is positive. */
  predicate Newer(a: uint32, b: uint32) {
    0 < (a - b) % WORD_LIMIT < 0x8000_0000
  }

  lemma SerialOrder(q: uint32)
    ensures Newer(Succ(q), q) && !Newer(q, Succ(q))
    ensures Newer(q, Pred(q)) && !Newer(Pred(q), q)
    ensures Pred(q) != Succ(q) && Pred(Succ(q)) == q
  {
  }

  /** A number is newer than another if and only if it lies 1 to 2^31 - 1 ahead, also across
      the wrap. */
  lemma NewerMeans(q: uint32, d: nat)
    requires d < WORD_LIMIT
    ensures Newer((q + d) % WORD_LIMIT, q) <==> 1 <= d <= 0x7FFF_FFFF
  {
    assert q + d == (q + d) % WORD_LIMIT + if q + d < WORD_LIMIT then 0 else WORD_LIMIT;
  }

  lemma OctetUnique(b: byte)
    ensures Octet(b as nat) == b
  {
    SameValue(Octet(b as nat), b);
  }

  lemma SameValue(a: byte, b: byte)
    requires a as nat == b as nat
    ensures a == b
  {
  }

  /** What the four bytes of a number are worth, lowest first. */
  lemma NumberMeans(n: uint32)
    ensures var b := NumberBytes(n);
            n == b[0] as nat + 0x100 * (b[1] as nat) + 0x1_0000 * (b[2] as nat) + 0x100_0000 * (b[3] as nat)
  {
    hide Octet;
  }

  lemma HalfDigits(low: nat, high: nat)
    requires low < 256 && high < 256
    ensures HalfBytes(low + 256 * high) == [Octet(low), Octet(high)]
  {
    hide Octet;
    assert (low + 256 * high) % 256 == low && (low + 256 * high) / 256 == high;
  }

  lemma HalfOfBytes(b0: byte, b1: byte)
    ensures HalfBytes(Half(b0, b1)) == [b0, b1]
  {
    hide HalfBytes, Octet;
    OctetUnique(b0);
    OctetUnique(b1);
    HalfDigits(b0 as nat, b1 as nat);
  }

  lemma NumberDigits(low: nat, high: nat)
    requires low < 0x1_0000 && high < 0x1_0000
    ensures NumberBytes(low + 0x1_0000 * high) == HalfBytes(low) + HalfBytes(high)
  {
    hide HalfBytes;
    assert (low + 0x1_0000 * high) % 0x1_0000 == low && (low + 0x1_0000 * high) / 0x1_0000 == high;
  }

  lemma HalfUnique(s: Block, at: nat)
    requires at + 2 <= |s|
    ensures s[at..at + 2] == HalfBytes(HalfAt(s, at))
  {
    hide HalfBytes, Half;
    HalfOfBytes(s[at], s[at + 1]);
  }

  lemma NumberUnique(s: Block, at: nat)
    requires at + 4 <= |s|
    ensures s[at..at + 4] == NumberBytes(NumberAt(s, at))
  {
    hide HalfAt, HalfBytes, NumberBytes;
    HalfUnique(s, at);
    HalfUnique(s, at + 2);
    NumberDigits(HalfAt(s, at), HalfAt(s, at + 2));
    assert s[at..at + 4] == s[at..at + 2] + s[at + 2..at + 4];
  }

  lemma NumberIs(s: Block, at: nat)
    requires at + 4 <= |s|
    ensures NumberAt(s, at) == s[at] as nat + 0x100 * (s[at + 1] as nat) + 0x1_0000 * (s[at + 2] as nat)
                               + 0x100_0000 * (s[at + 3] as nat)
  {
  }

  lemma WordIs(s: Block, at: nat)
    requires at + 4 <= |s|
    ensures WordAt(s, at) == (s[at] as bv32) | ((s[at + 1] as bv32) << 8) | ((s[at + 2] as bv32) << 16)
                             | ((s[at + 3] as bv32) << 24)
  {
  }

  /** Two words with the same bytes are the same word, and the other way round. */
  lemma WordInjective(s: Block, t: Block)
    requires |s| == |t| == 4
    ensures WordAt(s, 0) == WordAt(t, 0) <==> s == t
  {
    WordParts(s[0], s[1], s[2], s[3]);
    WordParts(t[0], t[1], t[2], t[3]);
    if WordAt(s, 0) == WordAt(t, 0) {
      assert forall i :: 0 <= i < 4 ==> s[i] == t[i];
    }
  }

  lemma WordParts(b0: byte, b1: byte, b2: byte, b3: byte)
    ensures var w := Word(b0, b1, b2, b3);
            WordBytes(w) == [b0, b1, b2, b3]
  {
  }

  /** A field reads the same wherever its bytes stand. */
  lemma NumberMoves(field: Block, s: Block, at: nat)
    requires |field| == 4 && at + 4 <= |s| && s[at..at + 4] == field
    ensures NumberAt(s, at) == NumberAt(field, 0)
  {
    assert s[at] == field[0] && s[at + 1] == field[1] && s[at + 2] == field[2] && s[at + 3] == field[3];
  }

  lemma WordMoves(field: Block, s: Block, at: nat)
    requires |field| == 4 && at + 4 <= |s| && s[at..at + 4] == field
    ensures WordAt(s, at) == WordAt(field, 0)
  {
    hide Word;
    assert s[at] == field[0] && s[at + 1] == field[1] && s[at + 2] == field[2] && s[at + 3] == field[3];
  }

  /** `s` with the bytes from `at` on replaced by `data`: what a block copy leaves. */
  function Splice(s: Block, at: nat, data: Block): (r: Block)
    requires at + |data| <= |s|
    ensures |r| == |s|
    ensures r[at..at + |data|] == data
    ensures forall i :: 0 <= i < |s| && !(at <= i < at + |data|) ==> r[i] == s[i]
  {
    s[..at] + data + s[at + |data|..]
  }

  function Fill(n: nat, b: byte): (r: Block)
    ensures |r| == n && forall i :: 0 <= i < n ==> r[i] == b
  {
    seq(n, _ => b)
  }

  /** Two copies laid end to end are one copy of the concatenation. */
  lemma SpliceTwice(s: Block, at: nat, a: Block, b: Block)
    requires at + |a| + |b| <= |s|
    ensures Splice(Splice(s, at, a), at + |a|, b) == Splice(s, at, a + b)
  {
  }

  lemma SliceOfSlice(s: Block, from: nat, to: nat, i: nat, j: nat)
    requires from <= to <= |s| && i <= j <= to - from
    ensures s[from..to][i..j] == s[from + i..from + j]
  {
    forall k | 0 <= k < j - i ensures s[from..to][i..j][k] == s[from + i..from + j][k] {
      assert s[from..to][i + k] == s[from + i + k];
    }
  }
}
