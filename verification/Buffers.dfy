/** Byte buffers read, written and filled in place. */
module Buffers {
  import opened Bytes

  /** The bounds-checked access every adapter gives to its buffer. */
  method ReadBuffer(buffer: array<byte>, offset: nat, length: nat) returns (ok: bool, out: Block)
    ensures ok <==> offset <= buffer.Length && length <= buffer.Length - offset
    ensures ok ==> out == buffer[offset..offset + length]
  {
    ok := offset <= buffer.Length && length <= buffer.Length - offset;
    out := if ok then buffer[offset..offset + length] else [];
  }

  /** A block copy into the buffer. */
  method CopyInto(buffer: array<byte>, at: nat, data: Block)
    requires at + |data| <= buffer.Length
    modifies buffer
    ensures buffer[..] == Splice(old(buffer[..]), at, data)
  {
    for i := 0 to |data|
      invariant forall k :: 0 <= k < buffer.Length ==>
                  buffer[k] == if at <= k < at + i then data[k - at] else old(buffer[k])
    {
      buffer[at + i] := data[i];
    }
    assert buffer[..] == Splice(old(buffer[..]), at, data);
  }

  method WriteBuffer(buffer: array<byte>, offset: nat, input: Block) returns (ok: bool)
    modifies buffer
    ensures ok <==> offset <= buffer.Length && |input| <= buffer.Length - offset
    ensures buffer[..] == if ok then Splice(old(buffer[..]), offset, input) else old(buffer[..])
  {
    if offset > buffer.Length || |input| > buffer.Length - offset {
      return false;
    }
    CopyInto(buffer, offset, input);
    ok := true;
  }

  method FillBuffer(buffer: array<byte>, data: Block)
    requires |data| == buffer.Length
    modifies buffer
    ensures buffer[..] == data
  {
    CopyInto(buffer, 0, data);
    assert Splice(old(buffer[..]), 0, data) == data;
  }
}
