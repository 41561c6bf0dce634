/** The STM32F1 storage adapter over a NOR flash that may lose power between, or
    inside, any two of its operations. */
module FlashStorage {
  import opened Bytes
  import opened Crc32
  import opened FlashImage

  /** NOR flash: programming only clears bits, erasing works on whole pages. The
      supply carries `budget` more byte programs or page erases and then fails;
      the byte being programmed is left somewhere on its way. A flaky part may also
      fail its final flush. */
  class NorFlash {
    const flaky: bool
    const mem: array<byte>
    var on: bool
    var budget: nat

    ghost predicate Valid()
      reads this
    {
      mem.Length == REGION_SIZE
    }

    /** Nothing goes wrong for the next `cost` units of work. */
    predicate Steady(cost: nat)
      reads this
    {
      !flaky && on && budget >= cost
    }

    /** A new part, erased. */
    constructor (flaky: bool, budget: nat)
      ensures Valid() && fresh(mem) && on && mem[..] == Fill(REGION_SIZE, 0xFF)
    {
      mem := new byte[REGION_SIZE](_ => 0xFF);
      on := true;
      this.flaky, this.budget := flaky, budget;
    }

    method Read(addr: nat, length: nat) returns (ok: bool, out: Block)
      requires Valid()
      ensures ok <==> on && SLOT_A <= addr && addr - SLOT_A + length <= REGION_SIZE
      ensures ok ==> out == mem[addr - SLOT_A..addr - SLOT_A + length]
    {
      ok := on && SLOT_A <= addr && addr - SLOT_A + length <= REGION_SIZE;
      out := [];
      if ok {
        out := mem[addr - SLOT_A..addr - SLOT_A + length];
      }
    }

    method Write(addr: nat, data: Block) returns (ok: bool)
      requires Valid()
      modifies this, mem
      ensures Valid()
      ensures !old(on) || addr < SLOT_A || addr - SLOT_A + |data| > REGION_SIZE ==>
                !ok && on == old(on) && mem[..] == old(mem[..])
      ensures old(on) && SLOT_A <= addr && addr - SLOT_A + |data| <= REGION_SIZE ==>
                Program(old(mem[..]), addr - SLOT_A, data, mem[..], ok)
      ensures ok ==> on
      ensures old(Steady(|data|)) && SLOT_A <= addr && addr - SLOT_A + |data| <= REGION_SIZE ==>
                ok == Programmable(old(mem[..]), addr - SLOT_A, data)
      ensures ok ==> budget == old(budget) - |data|
    {
      if !on || addr < SLOT_A || addr - SLOT_A + |data| > REGION_SIZE {
        return false;
      }
      hide Between, Clears;
      var at := addr - SLOT_A;
      for i := 0 to |data|
        invariant forall k :: 0 <= k < i ==> Clears(mem[at + k], data[k])
      {
        if !Clears(mem[at + i], data[i]) {
          return false;
        }
      }
      for i := 0 to |data|
        invariant Valid() && on && budget == old(budget) - i
        invariant forall k :: 0 <= k < i ==> mem[at + k] == data[k]
        invariant forall k :: 0 <= k < mem.Length && !(at <= k < at + i) ==> mem[k] == old(mem[k])
      {
        if budget == 0 {
          StillBetween(mem[at + i], data[i]);
          var torn: byte :| Between(mem[at + i], torn, data[i]);
          mem[at + i] := torn;
          on := false;
          forall k | 0 <= k < |data|
            ensures Between(old(mem[..])[at + k], mem[..][at + k], data[k])
          {
            StillBetween(old(mem[..])[at + k], data[k]);
          }
          return false;
        }
        budget := budget - 1;
        mem[at + i] := data[i];
      }
      assert mem[..] == Splice(old(mem[..]), at, data);
      ok := true;
    }

    lemma StillBetween(b: byte, d: byte)
      ensures Between(b, b, d)
      ensures Clears(b, d) ==> Between(b, d, d)
    {
    }

    method ErasePage(addr: nat) returns (ok: bool)
      requires Valid() && SLOT_A <= addr && addr - SLOT_A + PAGE_SIZE <= REGION_SIZE
      modifies this, mem
      ensures Valid()
      ensures mem[..] == if ok then FlashImage.ErasePage(old(mem[..]), addr - SLOT_A) else old(mem[..])
      ensures old(Steady(1)) ==> ok && on && budget == old(budget) - 1
    {
      if !on || budget == 0 {
        on := false;
        return false;
      }
      budget := budget - 1;
      var at := addr - SLOT_A;
      for i := 0 to PAGE_SIZE
        invariant Valid() && on && budget == old(budget) - 1
        invariant forall k :: 0 <= k < mem.Length ==> mem[k] == if at <= k < at + i then 0xFF else old(mem[k])
      {
        mem[at + i] := 0xFF;
      }
      assert mem[..] == FlashImage.ErasePage(old(mem[..]), at);
      ok := true;
    }

    /** The supply returns. */
    method PowerUp(budget: nat)
      requires Valid()
      modifies this
      ensures Valid() && on
    {
      on := true;
      this.budget := budget;
    }

    /** The final flush: it may fail for reasons of its own and changes no cell. */
    method Commit() returns (ok: bool)
      ensures ok ==> on
      ensures on && !flaky ==> ok
    {
      var flushed: bool := *;
      ok := on && (!flaky || flushed);
    }
  }

  class FlashStorage {
    const flash: NorFlash
    var activeSlot: Slot
    var provisionalSlot: Slot
    var activeSeq: uint32
    var newSeq: uint32
    var activeValid: bool
    var provisionalReady: bool

    ghost predicate Valid()
      reads this, flash
    {
      flash.Valid()
    }

    /** Medium and fields together. */
    ghost function View(): Store
      requires Valid()
      reads this, flash, flash.mem
    {
      Store(flash.mem[..], activeSlot, activeSeq, activeValid, provisionalSlot, newSeq, provisionalReady)
    }

    constructor (flash: NorFlash)
      requires flash.Valid()
      ensures Valid() && this.flash == flash && View() == Constructed(flash.mem[..])
    {
      this.flash := flash;
      activeSlot, provisionalSlot := SLOT_A, SLOT_B;
      activeSeq, newSeq := 0, 0;
      activeValid, provisionalReady := false, false;
    }

    method ValidateSlot(slot: Slot) returns (valid: bool, seqNo: uint32, empty: bool)
      requires Valid()
      ensures valid == (flash.on && Committed(Content(flash.mem[..], slot)))
      ensures valid ==> seqNo == Sequence(Content(flash.mem[..], slot))
      ensures empty == (flash.on && HeaderBlank(Content(flash.mem[..], slot)))
    {
      hide Checksum, NumberAt, WordAt;
      seqNo := 0;
      var okHeader, buf := flash.Read(slot, 13);
      if !okHeader {
        return false, 0, false;
      }
      ghost var s := Content(flash.mem[..], slot);
      assert buf == s[..13];
      HeaderFields(s, buf);

      var allFF := true;
      for i := 0 to 13
        invariant allFF <==> forall k :: 0 <= k < i ==> buf[k] == 0xFF
      {
        if buf[i] != 0xFF {
          allFF := false;
          break;
        }
      }
      if allFF {
        BlankIsNotCommitted(s);
        return false, 0, true;
      }
      if NumberAt(buf, 0) != MAGIC {
        return false, 0, false;
      }
      if buf[12] != COMMIT_MARKER {
        return false, 0, false;
      }
      var okPayload, payload := flash.Read(slot + ENVELOPE_SIZE, PAYLOAD_SIZE);
      if !okPayload {
        return false, seqNo, false;
      }
      assert payload == Payload(s);
      var computed := FlashCrc(payload);
      if computed != WordAt(buf, 8) {
        return false, 0, false;
      }
      return true, NumberAt(buf, 4), false;
    }

    lemma HeaderFields(s: Block, buf: Block)
      requires |s| == SLOT_SIZE && buf == s[..13]
      ensures NumberAt(buf, 0) == NumberAt(s, 0) && NumberAt(buf, 4) == NumberAt(s, 4) && WordAt(buf, 8) == WordAt(s, 8)
      ensures HeaderBlank(s) <==> forall i :: 0 <= i < 13 ==> buf[i] == 0xFF
    {
      NumberMoves(buf[0..4], s, 0);
      NumberMoves(buf[0..4], buf, 0);
      NumberMoves(buf[4..8], s, 4);
      NumberMoves(buf[4..8], buf, 4);
      WordMoves(buf[8..12], s, 8);
      WordMoves(buf[8..12], buf, 8);
    }

    method Begin() returns (ok: bool)
      requires Valid()
      modifies this
      ensures Valid()
      ensures flash.on ==> BeginCall(old(View()), View(), ok)
      ensures !flash.on ==> !ok && !activeValid
    {
      hide Checksum, NumberAt, WordAt, Committed, HeaderBlank, Sequence, Newer;
      var validA, seqA, emptyA := ValidateSlot(SLOT_A);
      var validB, seqB, emptyB := ValidateSlot(SLOT_B);

      if !validA && !validB {
        if emptyA {
          activeSlot, activeSeq, activeValid := SLOT_A, 0, true;
        } else if emptyB {
          activeSlot, activeSeq, activeValid := SLOT_B, 0, true;
        } else {
          activeValid := false;
          return false;
        }
      } else if validA && validB {
        if Newer(seqA, seqB) {
          activeSlot, activeSeq := SLOT_A, seqA;
        } else {
          activeSlot, activeSeq := SLOT_B, seqB;
        }
        activeValid := true;
      } else if validA {
        activeSlot, activeSeq, activeValid := SLOT_A, seqA, true;
      } else {
        activeSlot, activeSeq, activeValid := SLOT_B, seqB, true;
      }
      ok := activeValid;
    }

    /** Reads always come from the active slot, also while a replacement is staged. */
    method Read(offset: nat, length: nat) returns (ok: bool, out: Block)
      requires Valid()
      ensures ok == (flash.on && activeValid && length != 0 && offset <= PAYLOAD_SIZE
                     && length <= PAYLOAD_SIZE - offset)
      ensures ok ==> out == Exposed(View())[offset..offset + length]
    {
      out := [];
      if !activeValid || length == 0 {
        return false, out;
      }
      if offset > PAYLOAD_SIZE || length > PAYLOAD_SIZE - offset {
        return false, out;
      }
      ok, out := flash.Read(activeSlot + ENVELOPE_SIZE + offset, length);
      PayloadSlice(flash.mem[..], activeSlot, offset, if ok then length else 0);
    }

    lemma PayloadSlice(img: Image, slot: Slot, offset: nat, length: nat)
      requires offset + length <= PAYLOAD_SIZE
      ensures Payload(Content(img, slot))[offset..offset + length]
              == img[slot - SLOT_A + ENVELOPE_SIZE + offset..slot - SLOT_A + ENVELOPE_SIZE + offset + length]
    {
      var b := slot - SLOT_A;
      SliceOfSlice(img, b, b + SLOT_SIZE, ENVELOPE_SIZE, SLOT_SIZE);
      SliceOfSlice(img, b + ENVELOPE_SIZE, b + SLOT_SIZE, offset, offset + length);
    }

    method Write(offset: nat, input: Block) returns (ok: bool)
      requires Valid()
      modifies flash, flash.mem
      ensures Valid() && WriteCall(old(View()), offset, input, View(), ok)
      ensures old(provisionalReady && flash.Steady(|input|)) && |input| > 0 && offset + |input| <= PAYLOAD_SIZE ==>
                ok == Programmable(old(flash.mem[..]), provisionalSlot - SLOT_A + ENVELOPE_SIZE + offset, input)
    {
      hide Program;
      if !provisionalReady || |input| == 0 {
        return false;
      }
      if offset > PAYLOAD_SIZE || |input| > PAYLOAD_SIZE - offset {
        return false;
      }
      ok := flash.Write(provisionalSlot + ENVELOPE_SIZE + offset, input);
    }

    method Commit() returns (ok: bool)
      requires Valid()
      modifies this, flash, flash.mem
      ensures Valid() && CommitCall(old(View()), View(), ok)
      ensures old(provisionalReady && flash.Steady(13) && HeaderBlank(Content(flash.mem[..], provisionalSlot))) ==> ok
    {
      hide Checksum, NumberAt, WordAt, NumberBytes, WordBytes, Program, Programmable, Content, Payload, Splice,
           HeaderBlank;
      if !provisionalReady {
        return false;
      }
      ghost var img := flash.mem[..];
      ghost var at := provisionalSlot - SLOT_A;
      var okRead, payload := flash.Read(provisionalSlot + ENVELOPE_SIZE, PAYLOAD_SIZE);
      if !okRead {
        return false;
      }
      PayloadSlice(img, provisionalSlot, 0, PAYLOAD_SIZE);
      assert payload == Payload(Content(img, provisionalSlot));
      var crc := FlashCrc(payload);
      var header := NumberBytes(MAGIC) + NumberBytes(newSeq) + WordBytes(crc);
      assert header == Envelope(newSeq, payload);

      BlankTakes(img, provisionalSlot, header);
      var okHeader := flash.Write(provisionalSlot, header);
      if !okHeader {
        return false;
      }
      ProgramDone(img, at, header, flash.mem[..]);
      ghost var mid := flash.mem[..];
      var okMarker := flash.Write(provisionalSlot + 12, [COMMIT_MARKER]);
      if !okMarker {
        return false;
      }
      var okFlush := flash.Commit();
      if !okFlush {
        return false;
      }
      activeSlot := provisionalSlot;
      activeSeq := newSeq;
      provisionalReady := false;
      ok := true;
    }

    /** An erased envelope takes any header, and its marker byte after that. */
    lemma BlankTakes(img: Image, slot: Slot, header: Block)
      requires |header| == 12
      ensures HeaderBlank(Content(img, slot)) ==>
                Programmable(img, slot - SLOT_A, header)
                && Programmable(Splice(img, slot - SLOT_A, header), slot - SLOT_A + 12, [COMMIT_MARKER])
    {
      if HeaderBlank(Content(img, slot)) {
        var at := slot - SLOT_A;
        forall i | 0 <= i < 12 ensures Clears(img[at + i], header[i]) {
          BlankByte(img, slot, i);
          OnesClear(header[i]);
        }
        BlankByte(img, slot, 12);
        OnesClear(COMMIT_MARKER);
      }
    }

    lemma BlankByte(img: Image, slot: Slot, i: nat)
      requires i < 13 && HeaderBlank(Content(img, slot))
      ensures img[slot - SLOT_A + i] == 0xFF
    {
      assert Content(img, slot)[i] == img[slot - SLOT_A + i];
    }

    lemma OnesClear(d: byte)
      ensures Clears(0xFF, d)
    {
    }

    lemma ProgramDone(img: Block, at: nat, data: Block, img': Block)
      requires at + |data| <= |img| && Program(img, at, data, img', true)
      ensures Programmable(img, at, data) && img' == Splice(img, at, data)
    {
    }

    method Erase() returns (ok: bool)
      requires Valid()
      modifies this, flash, flash.mem
      ensures Valid() && EraseCall(old(View()), View(), ok)
      ensures old(activeValid && flash.Steady(2)) ==> ok
    {
      if !activeValid {
        return false;
      }
      provisionalSlot := if activeSlot == SLOT_A then SLOT_B else SLOT_A;
      newSeq := Succ(activeSeq);
      var one := flash.ErasePage(provisionalSlot);
      if !one {
        return false;
      }
      var two := flash.ErasePage(provisionalSlot + PAGE_SIZE);
      if !two {
        return false;
      }
      provisionalReady := true;
      ok := true;
    }
  }
}
