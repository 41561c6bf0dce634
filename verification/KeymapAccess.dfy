/** Sixteen-bit keymap cells in memory and the flat big-endian byte view of them that
    the host reads and writes in bulk. */
module KeymapAccess {
  import opened Bytes
  import opened Buffers
  import opened Layout
  import opened Places

  /** A cell is stored low byte first. */
  function Cell(low: byte, high: byte): bv16 {
    (low as bv16) | ((high as bv16) << 8)
  }

  function CellAt(ram: Block, at: nat): bv16
    requires at + 2 <= |ram|
  {
    Cell(ram[at], ram[at + 1])
  }

  function LowByte(v: bv16): byte { (v & 0xFF) as byte }

  function HighByte(v: bv16): byte { ((v >> 8) & 0xFF) as byte }

  lemma CellBytes(low: byte, high: byte)
    ensures LowByte(Cell(low, high)) == low && HighByte(Cell(low, high)) == high
  {
  }

  lemma CellOfBytes(v: bv16)
    ensures Cell(LowByte(v), HighByte(v)) == v
  {
  }

  /** One byte of a cell replaced by masking. */
  function PutByte(v: bv16, low: bool, b: byte): bv16 {
    if low then (v & 0xFF00) | (b as bv16) else (v & 0x00FF) | ((b as bv16) << 8)
  }

  /** It leaves the other byte. */
  lemma PutByteBytes(v: bv16, low: bool, b: byte)
    ensures LowByte(PutByte(v, low, b)) == if low then b else LowByte(v)
    ensures HighByte(PutByte(v, low, b)) == if low then HighByte(v) else b
  {
  }

  /** Host byte `i` of the flat view is the other byte of its cell in memory. */
  function Twin(i: nat): nat {
    if i % 2 == 0 then i + 1 else i - 1
  }

  /** The keymap as the host sees it: cells in order, high byte first. */
  function Flat(ram: Block, r: Region): (f: Block)
    requires r.Within(|ram|) && r.size % 2 == 0
    ensures |f| == r.size
  {
    seq(r.size, i requires 0 <= i < r.size => ram[r.at + Twin(i)])
  }

  /** `f` with `data` written at `offset`, as far as it fits. */
  function Overwritten(f: Block, offset: nat, data: Block): (g: Block)
    ensures |g| == |f|
  {
    seq(|f|, i requires 0 <= i < |f| => if offset <= i < offset + |data| then data[i - offset] else f[i])
  }

  /** `n` bytes of `f` from `offset` on, zero beyond its end. */
  function Excerpt(f: Block, offset: nat, n: nat): (g: Block)
    ensures |g| == n
  {
    seq(n, i requires 0 <= i < n => if offset + i < |f| then f[offset + i] else 0)
  }

  method LoadCell(ram: array<byte>, at: nat) returns (v: bv16)
    requires at + 2 <= ram.Length
    ensures v == Cell(ram[at], ram[at + 1])
  {
    v := (ram[at] as bv16) | ((ram[at + 1] as bv16) << 8);
  }

  method StoreCell(ram: array<byte>, at: nat, v: bv16)
    requires at + 2 <= ram.Length
    modifies ram
    ensures ram[..] == Splice(old(ram[..]), at, [LowByte(v), HighByte(v)])
  {
    CopyInto(ram, at, [LowByte(v), HighByte(v)]);
  }

  /** The slice of the flat view from `offset` on, with zeros beyond its end. */
  method ReadFlat(ram: array<byte>, r: Region, offset: nat, size: nat) returns (output: Block)
    requires r.Within(ram.Length) && r.size % 2 == 0
    ensures output == Excerpt(Flat(ram[..], r), offset, size)
  {
    hide Cell, LowByte, HighByte;
    output := [];
    for i := 0 to size
      invariant |output| == i
      invariant forall k :: 0 <= k < i ==>
                  output[k] == if offset + k < r.size then Flat(ram[..], r)[offset + k] else 0
    {
      var index := offset + i;
      if index >= r.size {
        output := output + [0];
      } else {
        var cell := r.at + 2 * (index / 2);
        var keycode := LoadCell(ram, cell);
        CellBytes(ram[cell], ram[cell + 1]);
        output := output + [if index % 2 == 1 then LowByte(keycode) else HighByte(keycode)];
      }
    }
  }

  /** Overwrites exactly the part of the slice that lies inside the keymap. */
  method WriteFlat(ram: array<byte>, r: Region, offset: nat, input: Block) returns (wrote: bool)
    requires r.Within(ram.Length) && r.size % 2 == 0
    modifies ram
    ensures Flat(ram[..], r) == Overwritten(Flat(old(ram[..]), r), offset, input)
    ensures forall k :: 0 <= k < ram.Length && !r.Has(k) ==> ram[k] == old(ram[k])
    ensures wrote <==> |input| > 0 && offset < r.size
  {
    wrote := false;
    assert Flat(ram[..], r) == Overwritten(Flat(old(ram[..]), r), offset, input[..0]);
    for i := 0 to |input|
      invariant Flat(ram[..], r) == Overwritten(Flat(old(ram[..]), r), offset, input[..i])
      invariant forall k :: 0 <= k < ram.Length && !r.Has(k) ==> ram[k] == old(ram[k])
      invariant wrote <==> i > 0 && offset < r.size
    {
      if offset + i < r.size {
        WriteOne(ram, r, offset + i, input[i]);
        wrote := true;
      }
      OneMore(Flat(old(ram[..]), r), offset, input, i);
    }
    assert input[..|input|] == input;
  }

  lemma OneMore(f: Block, offset: nat, input: Block, i: nat)
    requires i < |input|
    ensures Overwritten(f, offset, input[..i + 1])
            == if offset + i < |f| then Overwritten(f, offset, input[..i])[offset + i := input[i]]
               else Overwritten(f, offset, input[..i])
  {
  }

  /** One byte through its cell. */
  method WriteOne(ram: array<byte>, r: Region, index: nat, b: byte)
    requires r.Within(ram.Length) && r.size % 2 == 0 && index < r.size
    modifies ram
    ensures Flat(ram[..], r) == Flat(old(ram[..]), r)[index := b]
    ensures forall k :: 0 <= k < ram.Length && !r.Has(k) ==> ram[k] == old(ram[k])
  {
    hide Cell, LowByte, HighByte, PutByte;
    var cell := r.at + 2 * (index / 2);
    var keycode := LoadCell(ram, cell);
    CellBytes(ram[cell], ram[cell + 1]);
    PutByteBytes(keycode, index % 2 == 1, b);
    keycode := PutByte(keycode, index % 2 == 1, b);
    StoreCell(ram, cell, keycode);
    StoredBytes(old(ram[..]), cell, [LowByte(keycode), HighByte(keycode)]);
  }

  lemma StoredBytes(s: Block, at: nat, two: Block)
    requires |two| == 2 && at + 2 <= |s|
    ensures Splice(s, at, two)[at] == two[0] && Splice(s, at, two)[at + 1] == two[1]
  {
  }

  // ----- addressing

  /** The cell of a key position: layers, then rows, then columns. */
  function CellIndex(c: Config, layer: nat, row: nat, column: nat): nat {
    Place(Place(layer, c.rows, row), c.columns, column)
  }

  predicate OnBoard(c: Config, layer: nat, row: nat, column: nat) {
    layer < c.layers && row < c.rows && column < c.columns
  }

  /** Every position has a cell of its own. */
  lemma CellsInjective(c: Config, layer: nat, row: nat, column: nat, layer': nat, row': nat, column': nat)
    requires OnBoard(c, layer, row, column) && OnBoard(c, layer', row', column')
    ensures CellIndex(c, layer, row, column) == CellIndex(c, layer', row', column')
            ==> layer == layer' && row == row' && column == column'
  {
    hide Place;
    if CellIndex(c, layer, row, column) == CellIndex(c, layer', row', column') {
      PlaceUnique(c.columns, Place(layer, c.rows, row), column, Place(layer', c.rows, row'), column');
      PlaceUnique(c.rows, layer, row, layer', row');
    }
  }

  /** It lies inside the keymap, and the keyboard's layer lookup addresses the same cell. */
  lemma CellInside(c: Config, layer: nat, row: nat, column: nat)
    requires OnBoard(c, layer, row, column)
    ensures 2 * CellIndex(c, layer, row, column) + 2 <= KeymapBytes(c)
    ensures CellIndex(c, layer, row, column) == Place(layer, Place(c.rows, c.columns, 0), Place(row, c.columns, column))
  {
    PlaceBelow(layer, c.layers, c.rows, row);
    PlaceBelow(Place(layer, c.rows, row), Place(c.layers, c.rows, 0), c.columns, column);
    SameCell(layer, c.rows, row, c.columns, column);
    assert c.rows * c.columns * c.layers == c.layers * c.rows * c.columns;
  }

  /** Storing one cell changes that cell and no other. */
  lemma StoredCell(ram: Block, base: nat, index: nat, v: bv16, other: nat)
    requires base + 2 * index + 2 <= |ram| && base + 2 * other + 2 <= |ram|
    ensures CellAt(Splice(ram, base + 2 * index, [LowByte(v), HighByte(v)]), base + 2 * other)
            == if other == index then v else CellAt(ram, base + 2 * other)
  {
    hide Cell, LowByte, HighByte;
    CellOfBytes(v);
    StoredBytes(ram, base + 2 * index, [LowByte(v), HighByte(v)]);
  }

  lemma EvenKeymap(c: Config)
    ensures KeymapBytes(c) % 2 == 0
  {
  }
}
