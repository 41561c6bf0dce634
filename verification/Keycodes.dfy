/** Sixteen-bit keycodes: their classes and the fields the engine extracts. */
module Keycodes {

  datatype KeycodeType = NoKey | Transparent | Basic | Modifier | LayerKey | Boot | Unsupported

  function Classify(code: bv16): KeycodeType {
    if code == 0x0000 then NoKey
    else if code == 0x0001 then Transparent
    else if 0x0004 <= code <= 0x00A4 then Basic
    else if 0x00E0 <= code <= 0x00E7 then Modifier
    else if code <= 0x00FF then Unsupported
    else if 0x0100 <= code <= 0x1FFF then Basic
    else if 0x5200 <= code <= 0x52FF then LayerKey
    else if 0x7C00 <= code <= 0x7CFF then Boot
    else Unsupported
  }

  /** The classes by the code's high byte, as the source switches on it. */
  lemma ClassesByHighByte(code: bv16)
    ensures var high := code >> 8;
            Classify(code)
            == if high == 0x00 then
                 if code == 0x0000 then NoKey else if code == 0x0001 then Transparent
                 else if 0x0004 <= code && code <= 0x00A4 then Basic
                 else if 0x00E0 <= code && code <= 0x00E7 then Modifier else Unsupported
               else if 0x01 <= high && high <= 0x1F then Basic
               else if high == 0x52 then LayerKey else if high == 0x7C then Boot else Unsupported
  {
  }

  /** The first and last code of each class, and their neighbours. */
  lemma ClassEdges()
    ensures Classify(0x0000) == NoKey && Classify(0x0001) == Transparent
    ensures Classify(0x0002) == Classify(0x0003) == Unsupported && Classify(0x0004) == Classify(0x00A4) == Basic
    ensures Classify(0x00A5) == Classify(0x00DF) == Unsupported && Classify(0x00E0) == Classify(0x00E7) == Modifier
    ensures Classify(0x00E8) == Classify(0x00FF) == Unsupported && Classify(0x0100) == Classify(0x1FFF) == Basic
    ensures Classify(0x2000) == Classify(0x51FF) == Unsupported && Classify(0x5200) == Classify(0x52FF) == LayerKey
    ensures Classify(0x5300) == Classify(0x7BFF) == Unsupported && Classify(0x7C00) == Classify(0x7CFF) == Boot
    ensures Classify(0x7D00) == Classify(0xFFFF) == Unsupported
    ensures BasicUsage(0x0004) == 0x04 && BasicUsage(0x00A4) == 0xA4 && BasicUsage(0x0104) == 0x04
            && BasicUsage(0x1FFF) == 0xFF
  {
  }

  function BasicUsage(code: bv16): bv8 { (code & 0xFF) as bv8 }

  /** One bit of the modifier byte; defined for modifier codes. */
  function ModifierMask(code: bv16): bv8
    requires Classify(code) == Modifier
  {
    1 << (code - 0xE0)
  }

  /** The momentary, toggle, switch-to and default-layer actions. */
  datatype Action = MO | TG | TO | DF

  predicate IsLayerCode(code: bv16) { code & 0xFF00 == 0x5200 }

  function ActionOf(code: bv16): Action {
    var a := (code >> 5) & 0x03;
    if a == 0 then MO else if a == 1 then TG else if a == 2 then TO else DF
  }

  function LayerOf(code: bv16): (l: nat)
    ensures l < 32
  {
    LayerFits(code);
    (code & 0x1F) as nat
  }

  lemma LayerFits(code: bv16)
    ensures (code & 0x1F) as nat < 32
  {
  }

  /** The class test and the field extraction agree on what a layer code is. */
  lemma LayerCodes(code: bv16)
    ensures IsLayerCode(code) <==> Classify(code) == LayerKey
    ensures IsLayerCode(code) ==> code != 0
  {
  }

  /** Different modifier codes have different bits. */
  lemma MasksDisjoint(c: bv16, d: bv16)
    requires Classify(c) == Modifier && Classify(d) == Modifier
    ensures ModifierMask(c) != 0
    ensures ModifierMask(c) & ModifierMask(d) == if c == d then ModifierMask(c) else 0
  {
    MaskTable(c);
    MaskTable(d);
  }

  lemma MaskTable(c: bv16)
    requires Classify(c) == Modifier
    ensures ModifierMask(c) == if c == 0xE0 then 0x01 else if c == 0xE1 then 0x02 else if c == 0xE2 then 0x04
                               else if c == 0xE3 then 0x08 else if c == 0xE4 then 0x10 else if c == 0xE5 then 0x20
                               else if c == 0xE6 then 0x40 else 0x80
  {
  }
}
