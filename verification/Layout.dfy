/** Where Protocol's buffers lie in memory and how its state is laid out in a record. */
module Layout {
  import opened Bytes
  import opened Options

  type uint8 = n: nat | n < 256
  type uint16 = n: nat | n < 0x1_0000

  const NULL: nat := 0
  const MAX_CUSTOM_STATE: nat := 16

  /** Buffers are addresses in one flat memory. */
  datatype Config = Config(
    rows: uint8, columns: uint8, layers: uint8,
    keymap: nat, defaultKeymap: nat,
    macros: nat, macroBytes: uint16, macroCount: uint8,
    firmwareVersion: bv32, autoSaveMs: uint32, defaultLayoutOptions: bv32,
    encoderCount: uint8, encoderMap: nat, defaultEncoderMap: nat,
    loadBuffer: nat, loadBufferBytes: uint16,
    eepromResetEnabled: bool, bootloaderEnabled: bool)

  datatype Region = Region(at: nat, size: nat) {
    predicate Within(limit: nat) { at + size <= limit }
    predicate Has(x: nat) { at <= x < at + size }
  }

  /** The source's address comparison. */
  predicate RangesOverlap(first: nat, firstBytes: nat, second: nat, secondBytes: nat) {
    if firstBytes == 0 || secondBytes == 0 then false
    else if first <= second then second - first < firstBytes
    else first - second < secondBytes
  }

  predicate Overlap(a: Region, b: Region) { RangesOverlap(a.at, a.size, b.at, b.size) }

  /** It holds exactly when some address lies in both ranges. */
  lemma OverlapIsSharedAddress(a: Region, b: Region)
    ensures Overlap(a, b) <==> exists x: nat :: a.Has(x) && b.Has(x)
  {
    if Overlap(a, b) {
      var x := if a.at <= b.at then b.at else a.at;
      assert a.Has(x) && b.Has(x);
    }
  }

  function KeymapBytes(c: Config): nat { c.rows * c.columns * c.layers * 2 }

  function EncoderMapBytes(c: Config): nat { c.layers * c.encoderCount * 2 * 2 }

  function Keymap(c: Config): Region { Region(c.keymap, KeymapBytes(c)) }
  function DefaultKeymap(c: Config): Region { Region(c.defaultKeymap, KeymapBytes(c)) }
  function EncoderMap(c: Config): Region { Region(c.encoderMap, EncoderMapBytes(c)) }
  function DefaultEncoderMap(c: Config): Region { Region(c.defaultEncoderMap, EncoderMapBytes(c)) }
  function Macros(c: Config): Region { Region(c.macros, c.macroBytes) }

  /** Keymap, encoder map, macros and layout options: all of the payload but custom state. */
  function CoreBytes(c: Config): nat {
    KeymapBytes(c) + EncoderMapBytes(c) + c.macroBytes + 4
  }

  /** The payload size, unless custom state or the whole record is too large. */
  function StateBytes(c: Config, customBytes: nat): Option<nat> {
    if customBytes > MAX_CUSTOM_STATE || CoreBytes(c) + customBytes + 12 > 0xFFFF then None
    else Some(CoreBytes(c) + customBytes)
  }

  predicate LoadBufferValid(c: Config, bytes: nat) {
    var load := Region(c.loadBuffer, bytes);
    c.loadBuffer != NULL && c.loadBufferBytes >= bytes
    && !Overlap(load, Keymap(c)) && !Overlap(load, DefaultKeymap(c))
    && !Overlap(load, EncoderMap(c)) && !Overlap(load, DefaultEncoderMap(c))
    && !Overlap(load, Macros(c))
  }

  /** What the caller owes: buffers lie in memory, and the mutable ones share no byte
      with each other or with the defaults. */
  ghost predicate Mapped(c: Config, memory: nat) {
    && Keymap(c).Within(memory) && DefaultKeymap(c).Within(memory)
    && EncoderMap(c).Within(memory) && DefaultEncoderMap(c).Within(memory)
    && Macros(c).Within(memory) && Region(c.loadBuffer, c.loadBufferBytes).Within(memory)
  }

  ghost predicate Separate(c: Config) {
    && !Overlap(Keymap(c), EncoderMap(c)) && !Overlap(Keymap(c), Macros(c)) && !Overlap(EncoderMap(c), Macros(c))
    && !Overlap(Keymap(c), DefaultKeymap(c)) && !Overlap(Keymap(c), DefaultEncoderMap(c))
    && !Overlap(EncoderMap(c), DefaultKeymap(c)) && !Overlap(EncoderMap(c), DefaultEncoderMap(c))
    && !Overlap(Macros(c), DefaultKeymap(c)) && !Overlap(Macros(c), DefaultEncoderMap(c))
  }

  function Slice(ram: Block, r: Region): (s: Block)
    requires r.Within(|ram|)
    ensures |s| == r.size
  {
    ram[r.at..r.at + r.size]
  }

  /** The persisted state except custom bytes. */
  function Core(c: Config, ram: Block, layoutOptions: bv32): (s: Block)
    requires Keymap(c).Within(|ram|) && EncoderMap(c).Within(|ram|) && Macros(c).Within(|ram|)
    ensures |s| == CoreBytes(c)
  {
    Slice(ram, Keymap(c)) + Slice(ram, EncoderMap(c)) + Slice(ram, Macros(c)) + WordBytes(layoutOptions)
  }

  function DefaultCore(c: Config, ram: Block): (s: Block)
    requires DefaultKeymap(c).Within(|ram|) && DefaultEncoderMap(c).Within(|ram|)
    ensures |s| == CoreBytes(c)
  {
    Slice(ram, DefaultKeymap(c)) + Slice(ram, DefaultEncoderMap(c)) + Fill(c.macroBytes, 0)
        + WordBytes(c.defaultLayoutOptions)
  }

  /** The sizes: two bytes a key, four an encoder on each layer, the macros and the option
      word; at most 16 custom bytes and a record of 65535. */
  lemma StateSize(c: Config, customBytes: nat)
    ensures var n := 2 * c.rows * c.columns * c.layers + 4 * c.layers * c.encoderCount + c.macroBytes + 4 + customBytes;
            StateBytes(c, customBytes) == if customBytes > 16 || 12 + n > 65535 then None else Some(n)
  {
    assert c.rows * c.columns * c.layers * 2 == 2 * c.rows * c.columns * c.layers;
    assert c.layers * c.encoderCount * 2 * 2 == 4 * c.layers * c.encoderCount;
  }

  /** The payload byte by byte: keymap, encoder map, macros as they stand in memory, and the
      option word lowest byte first. */
  lemma CorePieces(c: Config, ram: Block, options: bv32, k: nat)
    requires Keymap(c).Within(|ram|) && EncoderMap(c).Within(|ram|) && Macros(c).Within(|ram|) && k < CoreBytes(c)
    ensures var e := KeymapBytes(c); var m := e + EncoderMapBytes(c); var o := m + c.macroBytes;
            Core(c, ram, options)[k]
            == if k < e then ram[c.keymap + k] else if k < m then ram[c.encoderMap + (k - e)]
               else if k < o then ram[c.macros + (k - m)]
               else if k == o then (options & 0xFF) as byte else if k == o + 1 then ((options >> 8) & 0xFF) as byte
               else if k == o + 2 then ((options >> 16) & 0xFF) as byte else ((options >> 24) & 0xFF) as byte
  {
    hide KeymapBytes, EncoderMapBytes;
  }

  /** The defaults: the built-in keymap and encoder map, no macros and the default options. */
  lemma DefaultPieces(c: Config, ram: Block, k: nat)
    requires DefaultKeymap(c).Within(|ram|) && DefaultEncoderMap(c).Within(|ram|) && k < CoreBytes(c)
    ensures var e := KeymapBytes(c); var m := e + EncoderMapBytes(c); var o := m + c.macroBytes;
            DefaultCore(c, ram)[k]
            == if k < e then ram[c.defaultKeymap + k] else if k < m then ram[c.defaultEncoderMap + (k - e)]
               else if k < o then 0
               else if k == o then (c.defaultLayoutOptions & 0xFF) as byte
               else if k == o + 1 then ((c.defaultLayoutOptions >> 8) & 0xFF) as byte
               else if k == o + 2 then ((c.defaultLayoutOptions >> 16) & 0xFF) as byte
               else ((c.defaultLayoutOptions >> 24) & 0xFF) as byte
  {
    hide KeymapBytes, EncoderMapBytes;
  }

  lemma SliceOfSplice(ram: Block, at: nat, data: Block, r: Region)
    requires at + |data| <= |ram| && r.Within(|ram|)
    ensures !Overlap(Region(at, |data|), r) ==> Slice(Splice(ram, at, data), r) == Slice(ram, r)
    ensures Region(at, |data|) == r ==> Slice(Splice(ram, at, data), r) == data
  {
  }

  /** A smaller part of a range overlaps no more than the range. */
  lemma OverlapShrinks(a: Region, b: Region, offset: nat, size: nat)
    requires offset + size <= a.size && !Overlap(a, b)
    ensures !Overlap(Region(a.at + offset, size), b) && !Overlap(b, Region(a.at + offset, size))
  {
  }

  /** Copying one block into a buffer leaves every buffer it does not overlap. */
  lemma CopyKeeps(ram: Block, dst: Region, data: Block, r: Region)
    requires dst.Within(|ram|) && |data| == dst.size && r.Within(|ram|) && (!Overlap(dst, r) || !Overlap(r, dst))
    ensures Slice(Splice(ram, dst.at, data), r) == Slice(ram, r)
  {
    SliceOfSplice(ram, dst.at, data, r);
  }

  function Part(r: Region, offset: nat, size: nat): Region
    requires offset + size <= r.size
  {
    Region(r.at + offset, size)
  }

  lemma PartIsSlice(ram: Block, r: Region, offset: nat, size: nat)
    requires r.Within(|ram|) && offset + size <= r.size
    ensures Part(r, offset, size).Within(|ram|)
    ensures Slice(ram, Part(r, offset, size)) == Slice(ram, r)[offset..offset + size]
  {
    SliceOfSlice(ram, r.at, r.at + r.size, offset, offset + size);
  }

  /** Memory after the three copies that publish a staged payload. */
  function Published(c: Config, ram: Block, load: Region): (r: Block)
    requires Mapped(c, |ram|) && load.Within(|ram|) && load.size >= CoreBytes(c)
    ensures |r| == |ram|
  {
    var k, e, m := KeymapBytes(c), EncoderMapBytes(c), c.macroBytes;
    var one := Splice(ram, c.keymap, Slice(ram, Part(load, 0, k)));
    var two := Splice(one, c.encoderMap, Slice(one, Part(load, k, e)));
    Splice(two, c.macros, Slice(two, Part(load, k + e, m)))
  }

  /** With the workspace apart from every configured buffer, publishing puts exactly the
      staged bytes in place and changes neither the workspace nor the defaults. */
  lemma PublishedExactly(c: Config, ram: Block, bytes: nat)
    requires Mapped(c, |ram|) && Separate(c) && LoadBufferValid(c, bytes) && bytes >= CoreBytes(c)
    ensures var load := Region(c.loadBuffer, bytes);
            var p, r := Slice(ram, load), Published(c, ram, load);
            var k, e, m := KeymapBytes(c), EncoderMapBytes(c), c.macroBytes;
            && Slice(r, Keymap(c)) == p[..k] && Slice(r, EncoderMap(c)) == p[k..k + e]
               && Slice(r, Macros(c)) == p[k + e..k + e + m]
            && Slice(r, load) == p
            && Slice(r, DefaultKeymap(c)) == Slice(ram, DefaultKeymap(c))
            && Slice(r, DefaultEncoderMap(c)) == Slice(ram, DefaultEncoderMap(c))
  {
    hide KeymapBytes, EncoderMapBytes, Overlap, RangesOverlap, Splice, Slice;
    var load := Region(c.loadBuffer, bytes);
    var k, e, m := KeymapBytes(c), EncoderMapBytes(c), c.macroBytes;
    var dk := Slice(ram, Part(load, 0, k));
    var one := Splice(ram, c.keymap, dk);
    PartIsSlice(ram, load, 0, k);
    SliceOfSplice(ram, c.keymap, dk, Keymap(c));
    CopyKeeps(ram, Keymap(c), dk, load);
    CopyKeeps(ram, Keymap(c), dk, DefaultKeymap(c));
    CopyKeeps(ram, Keymap(c), dk, DefaultEncoderMap(c));
    var de := Slice(one, Part(load, k, e));
    var two := Splice(one, c.encoderMap, de);
    PartIsSlice(one, load, k, e);
    SliceOfSplice(one, c.encoderMap, de, EncoderMap(c));
    CopyKeeps(one, EncoderMap(c), de, load);
    CopyKeeps(one, EncoderMap(c), de, Keymap(c));
    CopyKeeps(one, EncoderMap(c), de, DefaultKeymap(c));
    CopyKeeps(one, EncoderMap(c), de, DefaultEncoderMap(c));
    var dm := Slice(two, Part(load, k + e, m));
    PartIsSlice(two, load, k + e, m);
    SliceOfSplice(two, c.macros, dm, Macros(c));
    CopyKeeps(two, Macros(c), dm, load);
    CopyKeeps(two, Macros(c), dm, Keymap(c));
    CopyKeeps(two, Macros(c), dm, EncoderMap(c));
    CopyKeeps(two, Macros(c), dm, DefaultKeymap(c));
    CopyKeeps(two, Macros(c), dm, DefaultEncoderMap(c));
  }

  /** One more piece staged in the workspace behind what is there. */
  lemma StagePiece(c: Config, ram: Block, bytes: nat, offset: nat, piece: Block)
    requires Mapped(c, |ram|) && LoadBufferValid(c, bytes) && offset + |piece| <= bytes
    ensures var r := Splice(ram, c.loadBuffer + offset, piece);
            var load := Region(c.loadBuffer, bytes);
            && Slice(r, load)[..offset + |piece|] == Slice(ram, load)[..offset] + piece
            && (forall options :: Core(c, r, options) == Core(c, ram, options))
            && Slice(r, DefaultKeymap(c)) == Slice(ram, DefaultKeymap(c))
            && Slice(r, DefaultEncoderMap(c)) == Slice(ram, DefaultEncoderMap(c))
  {
    hide KeymapBytes, EncoderMapBytes, Overlap, RangesOverlap, Slice, WordBytes, Splice;
    var load := Region(c.loadBuffer, bytes);
    var dst := Part(load, offset, |piece|);
    OverlapShrinks(load, Keymap(c), offset, |piece|);
    OverlapShrinks(load, EncoderMap(c), offset, |piece|);
    OverlapShrinks(load, Macros(c), offset, |piece|);
    OverlapShrinks(load, DefaultKeymap(c), offset, |piece|);
    OverlapShrinks(load, DefaultEncoderMap(c), offset, |piece|);
    CopyKeeps(ram, dst, piece, Keymap(c));
    CopyKeeps(ram, dst, piece, EncoderMap(c));
    CopyKeeps(ram, dst, piece, Macros(c));
    CopyKeeps(ram, dst, piece, DefaultKeymap(c));
    CopyKeeps(ram, dst, piece, DefaultEncoderMap(c));
    SliceGrows(ram, load, offset, piece);
  }

  lemma SliceGrows(ram: Block, r: Region, offset: nat, piece: Block)
    requires r.Within(|ram|) && offset + |piece| <= r.size
    ensures Slice(Splice(ram, r.at + offset, piece), r)[..offset + |piece|] == Slice(ram, r)[..offset] + piece
  {
    var s := Splice(ram, r.at + offset, piece);
    assert s[r.at + offset..r.at + offset + |piece|] == piece;
    assert Slice(s, r)[..offset] == Slice(ram, r)[..offset];
    assert Slice(s, r)[..offset + |piece|] == Slice(s, r)[..offset] + s[r.at + offset..r.at + offset + |piece|];
  }

  /** Memory after the copies of the built-in defaults over the live buffers. */
  function Defaulted(c: Config, ram: Block): (r: Block)
    requires Mapped(c, |ram|)
    ensures |r| == |ram|
  {
    var one := Splice(ram, c.keymap, Slice(ram, DefaultKeymap(c)));
    var two := Splice(one, c.encoderMap, Slice(one, DefaultEncoderMap(c)));
    Splice(two, c.macros, Fill(c.macroBytes, 0))
  }

  lemma DefaultedExactly(c: Config, ram: Block)
    requires Mapped(c, |ram|) && Separate(c)
    ensures var r := Defaulted(c, ram);
            Core(c, r, c.defaultLayoutOptions) == DefaultCore(c, ram) == DefaultCore(c, r)
  {
    hide KeymapBytes, EncoderMapBytes, Overlap, RangesOverlap, Splice, Slice, WordBytes, Fill;
    var dk := Slice(ram, DefaultKeymap(c));
    var one := Splice(ram, c.keymap, dk);
    SliceOfSplice(ram, c.keymap, dk, Keymap(c));
    CopyKeeps(ram, Keymap(c), dk, DefaultKeymap(c));
    CopyKeeps(ram, Keymap(c), dk, DefaultEncoderMap(c));
    var de := Slice(one, DefaultEncoderMap(c));
    var two := Splice(one, c.encoderMap, de);
    SliceOfSplice(one, c.encoderMap, de, EncoderMap(c));
    CopyKeeps(one, EncoderMap(c), de, Keymap(c));
    CopyKeeps(one, EncoderMap(c), de, DefaultKeymap(c));
    CopyKeeps(one, EncoderMap(c), de, DefaultEncoderMap(c));
    var dm := Fill(c.macroBytes, 0);
    SliceOfSplice(two, c.macros, dm, Macros(c));
    CopyKeeps(two, Macros(c), dm, Keymap(c));
    CopyKeeps(two, Macros(c), dm, EncoderMap(c));
    CopyKeeps(two, Macros(c), dm, DefaultKeymap(c));
    CopyKeeps(two, Macros(c), dm, DefaultEncoderMap(c));
  }

  /** A buffer the defaults are kept apart from may change without changing them. */
  lemma DefaultsKept(c: Config, ram: Block, ram': Block, r: Region)
    requires Mapped(c, |ram|) && |ram'| == |ram|
    requires forall k :: 0 <= k < |ram| && !r.Has(k) ==> ram'[k] == ram[k]
    requires !Overlap(r, DefaultKeymap(c)) && !Overlap(r, DefaultEncoderMap(c))
    ensures DefaultCore(c, ram') == DefaultCore(c, ram)
  {
    hide KeymapBytes, EncoderMapBytes, WordBytes, Fill;
    assert Slice(ram', DefaultKeymap(c)) == Slice(ram, DefaultKeymap(c));
    assert Slice(ram', DefaultEncoderMap(c)) == Slice(ram, DefaultEncoderMap(c));
  }
}
