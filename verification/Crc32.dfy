/** The reflected CRC-32 of section 8 of RFC 1952, as the three storage layers
    compute it, and what it detects. */
module Crc32 {
  import opened Bytes
  import opened Register

  const POLYNOMIAL: bv32 := 0xEDB88320
  const ONES: bv32 := 0xFFFFFFFF

  /** One bit of the shift register. */
  function BitStep(c: bv32): bv32 {
    if c & 1 == 1 then (c >> 1) ^ POLYNOMIAL else c >> 1
  }

  function Xor(a: bv32, b: bv32): bv32 { a ^ b }

  function Steps(c: bv32, n: nat): bv32 { Iter(BitStep, c, n) }

  function Absorb(c: bv32, b: byte): bv32 { Steps(Xor(c, b as bv32), 8) }

  /** The register after a byte string. */
  function Run(c: bv32, s: Block): bv32 { Fold(Absorb, c, s) }

  /** The checksum kept in Protocol records and flash envelopes. */
  function Checksum(s: Block): bv32 { !Run(ONES, s) }

  /** The checksum kept in InternalFS files: the register itself. */
  function RawChecksum(s: Block): bv32 { Run(ONES, s) }

  // ----- the three loops of the sources

  lemma NextStep(c: bv32, n: nat)
    ensures Steps(c, 0) == c && Steps(c, n + 1) == BitStep(Steps(c, n))
  {
    hide BitStep;
  }

  lemma OneBit(c: bv32)
    ensures c & 1 == 0 || c & 1 == 1
  {
  }

  lemma MaskOfBit(m: bv32)
    requires m == 0 || m == 1
    ensures POLYNOMIAL & (0 - m) == if m == 1 then POLYNOMIAL else 0
  {
    if m == 1 {
      assert (0 as bv32) - 1 == ONES;
    } else {
      assert (0 as bv32) - 0 == 0;
    }
  }

  lemma XorOrder(a: bv32, b: bv32)
    ensures a ^ b == b ^ a && a ^ 0 == a
  {
  }

  /** Subtracting the low bit from zero gives a mask of all ones or none. */
  lemma MaskIsCondition(c: bv32)
    ensures (c >> 1) ^ (POLYNOMIAL & (0 - (c & 1))) == BitStep(c)
  {
    OneBit(c);
    MaskOfBit(c & 1);
    XorOrder(c >> 1, POLYNOMIAL);
  }

  /** Both conditional forms are the bit step. */
  lemma ConditionIsStep(c: bv32)
    ensures BitStep(c) == if c & 1 != 0 then (c >> 1) ^ POLYNOMIAL else c >> 1
    ensures BitStep(c) == if c & 1 != 0 then POLYNOMIAL ^ (c >> 1) else c >> 1
  {
    OneBit(c);
    XorOrder(c >> 1, POLYNOMIAL);
  }

  /** The mask form of Protocol. */
  method MaskedUpdate(crc: bv32, value: byte) returns (r: bv32)
    ensures r == Absorb(crc, value)
  {
    hide BitStep, Steps;
    r := crc ^ (value as bv32);
    NextStep(r, 0);
    for bit := 0 to 8
      invariant r == Steps(crc ^ (value as bv32), bit)
    {
      MaskIsCondition(r);
      NextStep(crc ^ (value as bv32), bit);
      r := (r >> 1) ^ (POLYNOMIAL & (0 - (r & 1)));
    }
  }

  lemma AbsorbNext(seed: bv32, data: Block, i: nat)
    requires i < |data|
    ensures Run(seed, data[..i + 1]) == Steps(Run(seed, data[..i]) ^ (data[i] as bv32), 8)
    ensures Run(seed, data[..0]) == seed && Run(seed, data[..|data|]) == Run(seed, data)
  {
    hide Steps;
    assert data[..i + 1][..i] == data[..i] && data[..|data|] == data;
  }

  lemma NoBytes(seed: bv32)
    ensures Run(seed, []) == seed
  {
  }

  /** The conditional form of FlashStorage. */
  method FlashCrc(data: Block) returns (r: bv32)
    ensures r == Checksum(data)
  {
    hide BitStep, Steps, Run, Checksum;
    var crc: bv32 := ONES;
    NoBytes(ONES);
    for i := 0 to |data|
      invariant crc == Run(ONES, data[..i])
    {
      AbsorbNext(ONES, data, i);
      var start := crc ^ (data[i] as bv32);
      crc := start;
      NextStep(start, 0);
      for b := 0 to 8
        invariant crc == Steps(start, b)
      {
        ConditionIsStep(crc);
        NextStep(start, b);
        if crc & 1 != 0 {
          crc := POLYNOMIAL ^ (crc >> 1);
        } else {
          crc := crc >> 1;
        }
      }
    }
    assert data[..|data|] == data;
    FlippedIsChecksum(data, crc);
    r := crc ^ ONES;
  }

  lemma FlippedIsChecksum(data: Block, c: bv32)
    requires c == Run(ONES, data)
    ensures c ^ ONES == Checksum(data)
  {
    hide Run;
    XorOnes(c);
  }

  lemma XorOnes(c: bv32)
    ensures c ^ ONES == !c
  {
  }

  /** The resumable form of InternalFSStorage, without the final complement. */
  method FileCrc(data: Block, seed: bv32) returns (r: bv32)
    ensures r == Run(seed, data)
  {
    hide BitStep, Steps, Run;
    r := seed;
    NoBytes(seed);
    for i := 0 to |data|
      invariant r == Run(seed, data[..i])
    {
      AbsorbNext(seed, data, i);
      var start := r ^ (data[i] as bv32);
      r := start;
      NextStep(start, 0);
      for bit := 0 to 8
        invariant r == Steps(start, bit)
      {
        ConditionIsStep(r);
        NextStep(start, bit);
        if r & 1 != 0 {
          r := (r >> 1) ^ POLYNOMIAL;
        } else {
          r := r >> 1;
        }
      }
    }
    assert data[..|data|] == data;
  }

  // ----- the register as a linear machine

  lemma BitStepAdditive()
    ensures Additive(BitStep, Xor)
  {
    forall a, b ensures BitStep(Xor(a, b)) == Xor(BitStep(a), BitStep(b)) {
      BitStepXor(a, b);
    }
  }

  lemma BitStepXor(a: bv32, b: bv32)
    ensures BitStep(a ^ b) == BitStep(a) ^ BitStep(b)
  {
    LowBit(a, b);
    ShiftXor(a, b);
    XorRegroup(a >> 1, b >> 1);
  }

  lemma LowBit(a: bv32, b: bv32)
    ensures (a ^ b) & 1 == (a & 1) ^ (b & 1)
    ensures a & 1 == 0 || a & 1 == 1
    ensures b & 1 == 0 || b & 1 == 1
  {
  }

  lemma ShiftXor(a: bv32, b: bv32)
    ensures (a ^ b) >> 1 == (a >> 1) ^ (b >> 1)
  {
  }

  lemma XorRegroup(x: bv32, y: bv32)
    ensures (x ^ y) ^ POLYNOMIAL == (x ^ POLYNOMIAL) ^ y == x ^ (y ^ POLYNOMIAL)
    ensures (x ^ POLYNOMIAL) ^ (y ^ POLYNOMIAL) == x ^ y
  {
  }

  /** The polynomial's top bit records which branch was taken: no step loses anything. */
  lemma BitStepInjective()
    ensures Injective(BitStep)
  {
    forall a, b | BitStep(a) == BitStep(b) ensures a == b {
      BitStepCancels(a, b);
    }
  }

  lemma BitStepCancels(a: bv32, b: bv32)
    requires BitStep(a) == BitStep(b)
    ensures a == b
  {
  }

  lemma XorCancels(x: bv32, y: bv32, v: bv32)
    ensures Xor(x, v) == Xor(y, v) ==> x == y
    ensures Xor(v, x) == Xor(v, y) ==> x == y
  {
  }

  lemma AbsorbInjective()
    ensures InjectivePerByte(Absorb)
  {
    forall x, y, b | Absorb(x, b) == Absorb(y, b) ensures x == y {
      AbsorbCancels(x, y, b);
    }
  }

  lemma AbsorbCancels(x: bv32, y: bv32, b: byte)
    requires Absorb(x, b) == Absorb(y, b)
    ensures x == y
  {
    BitStepInjective();
    IterInjective(BitStep, Xor(x, b as bv32), Xor(y, b as bv32), 8);
    XorCancels(x, y, b as bv32);
  }

  lemma RunAppend(c: bv32, s: Block, t: Block)
    ensures Run(c, s + t) == Run(Run(c, s), t)
  {
    FoldAppend(Absorb, c, s, t);
  }

  /** Bits parked above the register's low end move down unchanged. */
  lemma TwoDown(v: bv32)
    requires v & 0xC0000000 == 0
    ensures Steps(v << 2, 2) == v
  {
    OneDown(v << 1);
    OneDown(v);
    IterChain(BitStep, [v << 2, v << 1, v]);
  }

  lemma OneDown(v: bv32)
    ensures v & 0x80000000 == 0 ==> BitStep(v << 1) == v
  {
  }

  lemma FourDown(v: bv32)
    requires v & 0xF0000000 == 0
    ensures Steps(v << 4, 4) == v
  {
    TwoDown(v << 2);
    TwoDown(v);
    IterSplit(BitStep, v << 4, 2, 2);
  }

  lemma EightDown(v: bv32)
    requires v & 0xFF000000 == 0
    ensures Steps(v << 8, 8) == v
  {
    FourDown(v << 4);
    FourDown(v);
    IterSplit(BitStep, v << 8, 4, 4);
  }

  /** A byte parked above one, two or three others arrives after 8, 16 or 24 steps. */
  lemma Parked1(v: bv32)
    requires v & 0xFFFFFF00 == 0
    ensures Steps(v << 8, 8) == v
  {
    EightDown(v);
  }

  lemma Parked2(v: bv32)
    requires v & 0xFFFFFF00 == 0
    ensures Steps(v << 16, 16) == v
  {
    EightDown(v << 8);
    EightDown(v);
    IterSplit(BitStep, v << 16, 8, 8);
  }

  lemma Parked3(v: bv32)
    requires v & 0xFFFFFF00 == 0
    ensures Steps(v << 24, 24) == v
  {
    EightDown(v << 16);
    Parked2(v);
    IterSplit(BitStep, v << 24, 8, 16);
  }

  lemma ByteFits(b: byte)
    ensures (b as bv32) & 0xFFFFFF00 == 0
  {
  }

  lemma XorAssociative()
    ensures Associative(Xor)
  {
    forall x, y, z ensures Xor(Xor(x, y), z) == Xor(x, Xor(y, z)) {
      XorRegroups(x, y, z);
    }
  }

  lemma XorRegroups(x: bv32, y: bv32, z: bv32)
    ensures (x ^ y) ^ z == x ^ (y ^ z)
  {
  }

  lemma WordIsXor(b0: byte, b1: byte, b2: byte, b3: byte)
    ensures Word(b0, b1, b2, b3) == (((b0 as bv32) ^ ((b1 as bv32) << 8)) ^ ((b2 as bv32) << 16)) ^ ((b3 as bv32) << 24)
  {
  }

  /** Four bytes are absorbed as one 32-bit exclusive-or followed by 32 steps. */
  lemma AbsorbFourBytes(c: bv32, s: Block)
    requires |s| == 4
    ensures Run(c, s) == Steps(Xor(c, WordAt(s, 0)), 32)
  {
    FoldFour(Absorb, c, s);
    WordIsXor(s[0], s[1], s[2], s[3]);
    AbsorbFourWords(c, s[0], s[1], s[2], s[3]);
  }

  lemma AbsorbFourWords(c: bv32, b0: byte, b1: byte, b2: byte, b3: byte)
    ensures Absorb(Absorb(Absorb(Absorb(c, b0), b1), b2), b3)
            == Steps(Xor(c, Xor(Xor(Xor(b0 as bv32, (b1 as bv32) << 8), (b2 as bv32) << 16), (b3 as bv32) << 24)), 32)
  {
    ByteFits(b1); ByteFits(b2); ByteFits(b3);
    Parked1(b1 as bv32);
    Parked2(b2 as bv32);
    Parked3(b3 as bv32);
    BitStepAdditive();
    XorAssociative();
    AbsorbFour(BitStep, Xor, c, b0 as bv32, b1 as bv32, b2 as bv32, b3 as bv32,
               (b1 as bv32) << 8, (b2 as bv32) << 16, (b3 as bv32) << 24);
  }

  lemma FourDetected(c: bv32, w: Block, w': Block)
    requires |w| == |w'| == 4 && w != w'
    ensures Run(c, w) != Run(c, w')
  {
    AbsorbFourBytes(c, w);
    AbsorbFourBytes(c, w');
    WordInjective(w, w');
    BitStepInjective();
    XorCancels(WordAt(w, 0), WordAt(w', 0), c);
    if Run(c, w) == Run(c, w') {
      IterInjective(BitStep, Xor(c, WordAt(w, 0)), Xor(c, WordAt(w', 0)), 32);
    }
  }

  /** `q` is `p` with damage confined to the four bytes from `at` on. */
  ghost predicate Burst(p: Block, q: Block, at: nat) {
    |p| == |q| && p != q &&
    forall i :: 0 <= i < |p| && !(at <= i < at + 4) ==> p[i] == q[i]
  }

  /** Any damage inside a window of four bytes changes the register, wherever
      the window lies and whatever the register started from. */
  lemma {:induction false} BurstDetected(c: bv32, p: Block, q: Block, at: nat)
    requires Burst(p, q, at)
    ensures Run(c, p) != Run(c, q)
    decreases if at + 4 <= |p| then 0 else 1
  {
    if at + 4 <= |p| {
      var w, w' := p[at..at + 4], q[at..at + 4];
      assert p == p[..at] + w + p[at + 4..];
      assert q == p[..at] + w' + p[at + 4..];
      RunAppend(c, p[..at] + w, p[at + 4..]);
      RunAppend(c, p[..at], w);
      RunAppend(c, p[..at] + w', p[at + 4..]);
      RunAppend(c, p[..at], w');
      FourDetected(Run(c, p[..at]), w, w');
      AbsorbInjective();
      FoldInjective(Absorb, Run(c, p[..at] + w), Run(c, p[..at] + w'), p[at + 4..]);
    } else {
      // The window hangs over the end: complete it with zeros.
      var z := Fill(4, 0);
      var i :| 0 <= i < |p| && p[i] != q[i];
      assert (p + z)[i] != (q + z)[i];
      BurstDetected(c, p + z, q + z, at);
      RunAppend(c, p, z);
      RunAppend(c, q, z);
    }
  }

  // ----- the table-driven reference of RFC 1952

  /** x^32 modulo the generator x^32+x^26+x^23+x^22+x^16+x^12+x^11+x^10+x^8+x^7+x^5+x^4+x^2+x+1. */
  const X_TO_32: bv32 :=
    (1 << 26) | (1 << 23) | (1 << 22) | (1 << 16) | (1 << 12) | (1 << 11) | (1 << 10) | (1 << 8) | (1 << 7)
    | (1 << 5) | (1 << 4) | (1 << 2) | (1 << 1) | 1

  /** The word with its bits in the opposite order. */
  function Reversed(v: bv32): bv32 {
    var a := ((v >> 1) & 0x55555555) | ((v & 0x55555555) << 1);
    var b := ((a >> 2) & 0x33333333) | ((a & 0x33333333) << 2);
    var c := ((b >> 4) & 0x0F0F0F0F) | ((b & 0x0F0F0F0F) << 4);
    var d := ((c >> 8) & 0x00FF00FF) | ((c & 0x00FF00FF) << 8);
    (d >> 16) | (d << 16)
  }

  /** A polynomial of degree below 32 times x, modulo the generator: bit k is the
      coefficient of x^k. */
  function TimesX(a: bv32): bv32 {
    if a & 0x8000_0000 != 0 then (a << 1) ^ X_TO_32 else a << 1
  }

  /** The entry of a byte: its bits, highest power first, times x^32 modulo the generator,
      with the bits of both in reversed order. A reversed byte already stands at x^24. */
  function Table(index: bv32): bv32 {
    Reversed(Iter(TimesX, Reversed(index), 8))
  }

  lemma ReversedTwice(v: bv32)
    ensures Reversed(Reversed(v)) == v
  {
  }

  function Halved(c: bv32): bv32 { c >> 1 }

  function Doubled(c: bv32): bv32 { c << 1 }

  predicate Odd(c: bv32) { c & 1 == 1 }

  predicate Top(c: bv32) { c & 0x8000_0000 != 0 }

  lemma ReversedShift(c: bv32)
    ensures Reversed(Halved(c)) == Doubled(Reversed(c))
    ensures Top(Reversed(c)) <==> Odd(c)
  {
  }

  lemma ReversedXor(x: bv32, y: bv32)
    ensures Reversed(Xor(x, y)) == Xor(Reversed(x), Reversed(y))
  {
  }

  lemma ReversedPolynomial()
    ensures Reversed(POLYNOMIAL) == X_TO_32
  {
  }

  lemma StepCases(c: bv32)
    ensures BitStep(c) == if Odd(c) then Xor(Halved(c), POLYNOMIAL) else Halved(c)
  {
  }

  lemma TimesCases(a: bv32)
    ensures TimesX(a) == if Top(a) then Xor(Doubled(a), X_TO_32) else Doubled(a)
  {
  }

  /** A step of the register is a multiplication by x, on reversed bits. */
  lemma StepIsTimesX(c: bv32)
    ensures Reversed(BitStep(c)) == TimesX(Reversed(c))
  {
    hide Reversed, BitStep, TimesX, Xor, Halved, Doubled, Odd, Top;
    ReversedShift(c);
    StepCases(c);
    TimesCases(Reversed(c));
    ReversedXor(Halved(c), POLYNOMIAL);
    ReversedPolynomial();
  }

  lemma {:induction false} StepsAreTimesX(c: bv32, n: nat)
    ensures Reversed(Steps(c, n)) == Iter(TimesX, Reversed(c), n)
  {
    hide BitStep, Reversed, TimesX;
    if n == 0 {
      NextStep(c, 0);
    } else {
      StepsAreTimesX(c, n - 1);
      NextStep(c, n - 1);
      StepIsTimesX(Steps(c, n - 1));
    }
  }

  /** Eight steps of the register are that table entry. */
  lemma TableIsSteps(index: bv32)
    ensures Table(index) == Steps(index, 8)
  {
    hide BitStep, Reversed, TimesX, Steps;
    StepsAreTimesX(index, 8);
    ReversedTwice(Steps(index, 8));
  }

  function TableAbsorb(c: bv32, b: byte): bv32 {
    Xor(Table((c ^ (b as bv32)) & 0xFF), c >> 8)
  }

  function TableRun(c: bv32, s: Block): bv32 { Fold(TableAbsorb, c, s) }

  /** The bitwise loops compute the table-driven sum of RFC 1952. */
  lemma RunIsTableRun(c: bv32, s: Block)
    ensures Run(c, s) == TableRun(c, s)
  {
    forall x, b ensures Absorb(x, b) == TableAbsorb(x, b) {
      AbsorbIsTableAbsorb(x, b);
    }
    FoldCongruent(Absorb, TableAbsorb, c, s);
  }

  lemma AbsorbIsTableAbsorb(c: bv32, b: byte)
    ensures Absorb(c, b) == TableAbsorb(c, b)
  {
    hide Table, BitStep, Steps, Xor, Absorb, TableAbsorb;
    var x: bv32 := c ^ (b as bv32);
    AbsorbIs(c, b, x);
    TableIsSteps(x & 0xFF);
    HighAndLow(c, b);
    SplitAbsorb(x, x & 0xFF, c >> 8);
  }

  lemma AbsorbIs(c: bv32, b: byte, x: bv32)
    requires x == c ^ (b as bv32)
    ensures Absorb(c, b) == Steps(x, 8) && TableAbsorb(c, b) == Xor(Table(x & 0xFF), c >> 8)
  {
    hide Table, BitStep, Steps;
  }

  /** The high bytes only move down; the low one is looked up. */
  lemma SplitAbsorb(x: bv32, low: bv32, high: bv32)
    requires x == low ^ (high << 8) && high & 0xFF000000 == 0
    ensures Steps(x, 8) == Xor(Steps(low, 8), high)
  {
    BitStepAdditive();
    IterAdditive(BitStep, Xor, low, high << 8, 8);
    EightDown(high);
  }

  lemma HighAndLow(c: bv32, b: byte)
    ensures c ^ (b as bv32) == ((c ^ (b as bv32)) & 0xFF) ^ ((c >> 8) << 8)
    ensures (c >> 8) & 0xFF000000 == 0
  {
  }

  // ----- published values

  lemma FromChain(x: seq<bv32>)
    requires |x| == 9 && forall i :: 0 <= i < 8 ==> BitStep(x[i]) == x[i + 1]
    ensures Steps(x[0], 8) == x[8]
  {
    hide BitStep;
    IterChain(BitStep, x);
  }

  lemma PowersMove()
    ensures BitStep(0x80) == 0x40 && BitStep(0x40) == 0x20 && BitStep(0x20) == 0x10 && BitStep(0x10) == 0x8
    ensures BitStep(0x8) == 0x4 && BitStep(0x4) == 0x2 && BitStep(0x2) == 0x1
    ensures BitStep(0x1) == 0xEDB88320
    ensures BitStep(0xEDB88320) == 0x76DC4190
    ensures BitStep(0x76DC4190) == 0x3B6E20C8
    ensures BitStep(0x3B6E20C8) == 0x1DB71064
    ensures BitStep(0x1DB71064) == 0xEDB8832
    ensures BitStep(0xEDB8832) == 0x76DC419
    ensures BitStep(0x76DC419) == 0xEE0E612C
    ensures BitStep(0xEE0E612C) == 0x77073096
  {
  }

  /** The table entries of the eight single bits, as published. */
  lemma TableEntries()
    ensures Table(0x1) == 0x77073096
    ensures Table(0x2) == 0xEE0E612C
    ensures Table(0x4) == 0x076DC419
    ensures Table(0x8) == 0x0EDB8832
    ensures Table(0x10) == 0x1DB71064
    ensures Table(0x20) == 0x3B6E20C8
    ensures Table(0x40) == 0x76DC4190
    ensures Table(0x80) == 0xEDB88320
  {
    hide Table, BitStep, Steps;
    PowersMove();
    FromChain([0x1, 0xEDB88320, 0x76DC4190, 0x3B6E20C8, 0x1DB71064,
               0xEDB8832, 0x76DC419, 0xEE0E612C, 0x77073096]);
    FromChain([0x2, 0x1, 0xEDB88320, 0x76DC4190, 0x3B6E20C8, 0x1DB71064, 0xEDB8832, 0x76DC419, 0xEE0E612C]);
    FromChain([0x4, 0x2, 0x1, 0xEDB88320, 0x76DC4190, 0x3B6E20C8, 0x1DB71064, 0xEDB8832, 0x76DC419]);
    FromChain([0x8, 0x4, 0x2, 0x1, 0xEDB88320, 0x76DC4190, 0x3B6E20C8, 0x1DB71064, 0xEDB8832]);
    FromChain([0x10, 0x8, 0x4, 0x2, 0x1, 0xEDB88320, 0x76DC4190, 0x3B6E20C8, 0x1DB71064]);
    FromChain([0x20, 0x10, 0x8, 0x4, 0x2, 0x1, 0xEDB88320, 0x76DC4190, 0x3B6E20C8]);
    FromChain([0x40, 0x20, 0x10, 0x8, 0x4, 0x2, 0x1, 0xEDB88320, 0x76DC4190]);
    FromChain([0x80, 0x40, 0x20, 0x10, 0x8, 0x4, 0x2, 0x1, 0xEDB88320]);
    TableIsSteps(0x1);
    TableIsSteps(0x2);
    TableIsSteps(0x4);
    TableIsSteps(0x8);
    TableIsSteps(0x10);
    TableIsSteps(0x20);
    TableIsSteps(0x40);
    TableIsSteps(0x80);
  }

  lemma AbsorbChain(c: bv32, b: byte, x: seq<bv32>, r: bv32)
    requires |x| == 9 && x[0] == c ^ (b as bv32) && forall i :: 0 <= i < 8 ==> BitStep(x[i]) == x[i + 1]
    requires r == x[8]
    ensures Absorb(c, b) == r
  {
    hide BitStep;
    FromChain(x);
  }

  lemma Digit1()
    ensures Absorb(0xFFFFFFFF, 0x31) == 0x7C231048
  {
    AbsorbChain(0xFFFFFFFF, 0x31, [0xFFFFFFCE, 0x7FFFFFE7, 0xD2477CD3, 0x849B3D49, 0xAFF51D84, 0x57FA8EC2, 0x2BFD4761,
                                   0xF8462090, 0x7C231048], 0x7C231048);
  }

  lemma Digit2()
    ensures Absorb(0x7C231048, 0x32) == 0xB0ACBB32
  {
    AbsorbChain(0x7C231048, 0x32, [0x7C23107A, 0x3E11883D, 0xF2B0473E, 0x7958239F, 0xD11492EF, 0x8532CA57, 0xAF21E60B,
                                   0xBA287025, 0xB0ACBB32], 0xB0ACBB32);
  }

  lemma Digit3()
    ensures Absorb(0xB0ACBB32, 0x33) == 0x77B79C2D
  {
    AbsorbChain(0xB0ACBB32, 0x33, [0xB0ACBB01, 0xB5EEDEA0, 0x5AF76F50, 0x2D7BB7A8, 0x16BDDBD4, 0xB5EEDEA, 0x5AF76F5,
                                   0xEF6F385A, 0x77B79C2D], 0x77B79C2D);
  }

  lemma Digit4()
    ensures Absorb(0x77B79C2D, 0x34) == 0x641C1F5C
  {
    AbsorbChain(0x77B79C2D, 0x34, [0x77B79C19, 0xD6634D2C, 0x6B31A696, 0x3598D34B, 0xF774EA85, 0x9602F662, 0x4B017B31,
                                   0xC8383EB8, 0x641C1F5C], 0x641C1F5C);
  }

  lemma Digit5()
    ensures Absorb(0x641C1F5C, 0x35) == 0x340AC5E3
  {
    AbsorbChain(0x641C1F5C, 0x35, [0x641C1F69, 0xDFB68C94, 0x6FDB464A, 0x37EDA325, 0xF64E52B2, 0x7B272959, 0xD02B178C,
                                   0x68158BC6, 0x340AC5E3], 0x340AC5E3);
  }

  lemma Digit6()
    ensures Absorb(0x340AC5E3, 0x36) == 0xF68D2C9E
  {
    AbsorbChain(0x340AC5E3, 0x36, [0x340AC5D5, 0xF7BDE1CA, 0x7BDEF0E5, 0xD057FB52, 0x682BFDA9, 0xD9AD7DF4, 0x6CD6BEFA,
                                   0x366B5F7D, 0xF68D2C9E], 0xF68D2C9E);
  }

  lemma Digit7()
    ensures Absorb(0xF68D2C9E, 0x37) == 0xAFFC9660
  {
    AbsorbChain(0xF68D2C9E, 0x37, [0xF68D2CA9, 0x96FE1574, 0x4B7F0ABA, 0x25BF855D, 0xFF67418E, 0x7FB3A0C7, 0xD2615343,
                                   0x84882A81, 0xAFFC9660], 0xAFFC9660);
  }

  lemma Digit8()
    ensures Absorb(0xAFFC9660, 0x38) == 0x651F2550
  {
    AbsorbChain(0xAFFC9660, 0x38, [0xAFFC9658, 0x57FE4B2C, 0x2BFF2596, 0x15FF92CB, 0xE7474A45, 0x9E1B2602, 0x4F0D9301,
                                   0xCA3E4AA0, 0x651F2550], 0x651F2550);
  }

  lemma Digit9()
    ensures Absorb(0x651F2550, 0x39) == 0x340BC6D9
  {
    AbsorbChain(0x651F2550, 0x39, [0x651F2569, 0xDF371194, 0x6F9B88CA, 0x37CDC465, 0xF65E6112, 0x7B2F3089, 0xD02F1B64,
                                   0x68178DB2, 0x340BC6D9], 0x340BC6D9);
  }

  lemma RunStep(d: Block, i: nat)
    requires i < |d|
    ensures Run(ONES, d[..i + 1]) == Absorb(Run(ONES, d[..i]), d[i])
    ensures d[..0] == []
  {
    hide Absorb;
    assert d[..i + 1][..i] == d[..i];
  }

  /** The check value: the nine digits "123456789" sum to 0xCBF43926. */
  lemma CheckValue()
    ensures var digits := [0x31, 0x32, 0x33, 0x34, 0x35, 0x36, 0x37, 0x38, 0x39];
            Checksum(digits) == 0xCBF43926 && RawChecksum(digits) == 0x340BC6D9
  {
    hide Absorb, BitStep;
    var d: Block := [0x31, 0x32, 0x33, 0x34, 0x35, 0x36, 0x37, 0x38, 0x39];
    NoBytes(ONES);
    Digit1();
    RunStep(d, 0);
    Digit2();
    RunStep(d, 1);
    Digit3();
    RunStep(d, 2);
    Digit4();
    RunStep(d, 3);
    Digit5();
    RunStep(d, 4);
    Digit6();
    RunStep(d, 5);
    Digit7();
    RunStep(d, 6);
    Digit8();
    RunStep(d, 7);
    Digit9();
    RunStep(d, 8);
    assert d[..9] == d;
  }
}
