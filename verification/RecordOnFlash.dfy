/** Why Protocol's two-step header does not suit NOR flash: the final header can be
    programmed over the first one only when the checksum happens to be zero. */
module RecordOnFlash {
  import opened Bytes
  import opened FlashImage
  import opened StateRecord

  lemma SameClears(b: byte)
    ensures Clears(b, b)
    ensures Clears(0, b) <==> b == 0
  {
  }

  lemma ZeroWord(s: Block)
    requires |s| == 4
    ensures WordAt(s, 0) == 0 <==> s[0] == 0 && s[1] == 0 && s[2] == 0 && s[3] == 0
  {
  }

  lemma HeaderByte(size: nat, crc: bv32, i: nat)
    requires size < 0x1_0000 && i < STATE_HEADER
    ensures HeaderBytes(size, crc)[i] == if i < 8 then HeaderBytes(size, 0)[i] else WordBytes(crc)[i - 8]
  {
    hide NumberBytes, HalfBytes, WordBytes;
  }

  /** After the first header, the second is programmable if and only if the checksum is
      zero: those bytes were already cleared. */
  lemma FinalHeaderProgrammable(img: Block, at: nat, size: nat, crc: bv32)
    requires size < 0x1_0000 && at + STATE_HEADER <= |img| && img[at..at + STATE_HEADER] == HeaderBytes(size, 0)
    ensures Programmable(img, at, HeaderBytes(size, crc)) <==> crc == 0
  {
    hide HeaderBytes, WordBytes, Clears, WordAt;
    var first, last := HeaderBytes(size, 0), HeaderBytes(size, crc);
    ZeroWord(WordBytes(0));
    ZeroWord(WordBytes(crc));
    forall i | 0 <= i < STATE_HEADER
      ensures Clears(img[at + i], last[i]) <==> (i < 8 || last[i] == 0)
    {
      assert img[at + i] == first[i] by {
        assert img[at..at + STATE_HEADER][i] == img[at + i];
      }
      HeaderByte(size, 0, i);
      HeaderByte(size, crc, i);
      SameClears(last[i]);
      assert i >= 8 ==> WordBytes(0)[i - 8] == 0;
    }
    assert forall i :: 8 <= i < 12 ==> last[i] == WordBytes(crc)[i - 8] by {
      forall i | 8 <= i < 12 ensures last[i] == WordBytes(crc)[i - 8] {
        HeaderByte(size, crc, i);
      }
    }
    if Programmable(img, at, last) {
      assert Clears(img[at + 8], last[8]) && Clears(img[at + 9], last[9]) && Clears(img[at + 10], last[10])
             && Clears(img[at + 11], last[11]);
    }
  }
}
