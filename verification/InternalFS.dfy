/** The nRF52 storage adapter over two files on a medium that may lose power
    between, or inside, any two of its operations. */
module InternalFS {
  import opened Bytes
  import opened Buffers
  import opened Crc32
  import opened FileImage

  /** Truncate-then-append files. The supply carries `budget` more truncations or
      appended bytes and then fails; `faults` is how often closing a written file may
      damage its payload; a flaky medium may refuse to open or append. */
  class FileSystem {
    const flaky: bool
    var files: Files
    var on: bool
    var budget: nat
    var faults: nat

    constructor (flaky: bool, budget: nat, faults: nat)
      ensures files == Files(Absent, Absent) && on && this.flaky == flaky && this.budget == budget
              && this.faults == faults
    {
      this.flaky := flaky;
      files := Files(Absent, Absent);
      on := true;
      this.budget, this.faults := budget, faults;
    }

    /** Nothing goes wrong for the next `cost` units of work. */
    predicate Steady(cost: nat)
      reads this
    {
      !flaky && on && faults == 0 && budget >= cost
    }

    method PowerUp(budget: nat)
      modifies this
      ensures on && files == old(files) && faults == old(faults)
    {
      on := true;
      this.budget := budget;
    }

    /** Tells whether the file is gone. It may be refused, and without power it is. */
    method Remove(name: Name) returns (gone: bool)
      modifies this
      ensures files == if gone then old(files).Put(name, Absent) else old(files)
      ensures (on ==> old(on)) && (gone ==> old(on) && on) && (!gone && !flaky ==> !on) && faults == old(faults)
      ensures old(Steady(1)) ==> gone && budget == old(budget) - 1
    {
      var refused: bool := *;
      if !on || budget == 0 {
        on := false;
        return false;
      }
      if refused && flaky {
        return false;
      }
      budget := budget - 1;
      files := files.Put(name, Absent);
      gone := true;
    }

    method OpenRead(name: Name) returns (ok: bool)
      ensures ok <==> on && files.Get(name).Present?
    {
      ok := on && files.Get(name).Present?;
    }

    /** Up to `size` bytes from `pos` on: fewer at the end of the file. */
    method Read(name: Name, pos: nat, size: nat) returns (out: Block)
      requires files.Get(name).Present?
      ensures var data := files.Get(name).data;
              out == if on && pos <= |data| then data[pos..if pos + size <= |data| then pos + size else |data|] else []
    {
      var data := files.Get(name).data;
      if !on || pos > |data| {
        return [];
      }
      out := data[pos..if pos + size <= |data| then pos + size else |data|];
    }

    /** Opening for writing empties the file; it may fail and change nothing. */
    method OpenWrite(name: Name) returns (ok: bool)
      modifies this
      ensures files == if ok then old(files).Put(name, Present([])) else old(files)
      ensures (on ==> old(on)) && (ok ==> on)
      ensures old(Steady(1)) ==> ok && !flaky && on && faults == 0 && budget == old(budget) - 1
    {
      var refused: bool := *;
      refused := refused && flaky;
      if !on || budget == 0 {
        on := false;
        return false;
      }
      if refused {
        return false;
      }
      budget := budget - 1;
      files := files.Put(name, Present([]));
      ok := true;
    }

    /** Appends the bytes the supply still carries. */
    method Append(name: Name, data: Block) returns (written: nat)
      requires files.Get(name).Present?
      modifies this
      ensures written <= |data|
      ensures files == old(files).Put(name, Present(old(files.Get(name).data) + data[..written]))
      ensures (on ==> old(on)) && (!old(on) ==> written == 0)
      ensures old(Steady(|data|)) ==> written == |data| && on && faults == 0 && budget == old(budget) - |data|
    {
      var refused: bool := *;
      refused := refused && flaky;
      written := 0;
      ghost var before := files.Get(name).data;
      assert before + data[..0] == before;
      while written < |data| && on && !refused
        invariant written <= |data|
        invariant files == old(files).Put(name, Present(before + data[..written]))
        invariant (on ==> old(on)) && (!old(on) ==> written == 0)
        invariant old(Steady(|data|)) ==> on && !refused && faults == 0 && budget == old(budget) - written
        decreases |data| - written, on
      {
        if budget == 0 {
          on := false;
        } else {
          budget := budget - 1;
          assert data[..written + 1] == data[..written] + [data[written]];
          assert before + data[..written + 1] == before + data[..written] + [data[written]];
          files := files.Put(name, Present(files.Get(name).data + [data[written]]));
          written := written + 1;
        }
      }
    }

    /** Closing a written file; a fault may damage four neighbouring payload bytes. */
    method CloseWritten(name: Name)
      requires files.Get(name).Present?
      modifies this
      ensures files == old(files)
              || (files == old(files).Put(name, files.Get(name)) && files.Get(name).Present?
                  && Damaged(old(files).Get(name).data, files.Get(name).data))
      ensures on == old(on) && budget == old(budget) && (old(faults) == 0 ==> files == old(files) && faults == 0)
    {
      var data := files.Get(name).data;
      var fault: bool := *;
      if faults > 0 && fault && |data| > HEADER_SIZE {
        faults := faults - 1;
        var at: nat, patch: Block := *, *;
        if HEADER_SIZE <= at && |patch| <= 4 && at + |patch| <= |data| && data[at..at + |patch|] != patch {
          var after := Splice(data, at, patch);
          PatchIsDamage(data, at, patch);
          files := files.Put(name, Present(after));
        }
      }
    }

    lemma PatchIsDamage(data: Block, at: nat, patch: Block)
      requires HEADER_SIZE <= at && |patch| <= 4 && at + |patch| <= |data| && data[at..at + |patch|] != patch
      ensures Damaged(data, Splice(data, at, patch))
    {
      var after := Splice(data, at, patch);
      var p, q := data[HEADER_SIZE..], after[HEADER_SIZE..];
      forall i | 0 <= i < |p| && !(at - HEADER_SIZE <= i < at - HEADER_SIZE + 4) ensures p[i] == q[i] {
        assert p[i] == data[HEADER_SIZE + i] && q[i] == after[HEADER_SIZE + i];
      }
      assert p[at - HEADER_SIZE..at - HEADER_SIZE + |patch|] == data[at..at + |patch|];
      assert q[at - HEADER_SIZE..at - HEADER_SIZE + |patch|] == after[at..at + |patch|];
      assert Burst(p, q, at - HEADER_SIZE);
    }
  }

  class InternalFSStorage {
    const fs: FileSystem
    const staging: array<byte>
    var generation: uint32
    var initialized: bool

    ghost predicate Valid()
      reads this
    {
      staging.Length < WORD_LIMIT
    }

    ghost function View(): FileStore
      reads this, fs, staging
    {
      FileStore(fs.files, staging[..], generation, fs.on)
    }

    constructor (fs: FileSystem, staging: array<byte>)
      requires staging.Length < WORD_LIMIT
      ensures Valid() && this.fs == fs && this.staging == staging && !initialized
    {
      this.fs, this.staging := fs, staging;
      generation, initialized := 0, false;
    }

    /** The checksum over a payload read in chunks of 256 bytes is the checksum read in one piece. */
    method PayloadMatches(name: Name, length: nat, expected: bv32) returns (ok: bool)
      requires fs.files.Get(name).Present? && |fs.files.Get(name).data| >= HEADER_SIZE
      ensures var data := fs.files.Get(name).data;
              ok <==> (length == 0 || fs.on) && |data| >= HEADER_SIZE + length
                      && RawChecksum(data[HEADER_SIZE..HEADER_SIZE + length]) == expected
    {
      hide Run;
      var fileCrc := ONES;
      var remaining := length;
      ghost var data := fs.files.Get(name).data;
      RunEmpty(ONES);
      assert data[HEADER_SIZE..HEADER_SIZE] == [];
      while remaining > 0
        invariant 0 <= remaining <= length && |data| >= HEADER_SIZE + (length - remaining)
        invariant remaining < length ==> fs.on
        invariant fileCrc == Run(ONES, data[HEADER_SIZE..HEADER_SIZE + (length - remaining)])
      {
        var toRead := if remaining > 256 then 256 else remaining;
        var pos := HEADER_SIZE + (length - remaining);
        var chunk := fs.Read(name, pos, toRead);
        if |chunk| != toRead {
          return false;
        }
        fileCrc := FileCrc(chunk, fileCrc);
        RunAppend(ONES, data[HEADER_SIZE..pos], chunk);
        assert data[HEADER_SIZE..pos] + chunk == data[HEADER_SIZE..pos + toRead];
        remaining := remaining - toRead;
      }
      ok := fileCrc == expected;
    }

    lemma RunEmpty(c: bv32)
      ensures Run(c, []) == c
    {
    }

    /** One file's check at start-up. */
    method CheckFile(name: Name) returns (valid: bool, gen: uint32)
      requires Valid() && fs.on
      ensures valid == ValidFile(fs.files.Get(name), staging.Length)
      ensures valid ==> gen == Generation(fs.files.Get(name))
    {
      hide NumberAt, WordAt, RawChecksum;
      valid, gen := false, 0;
      var isOpen := fs.OpenRead(name);
      if isOpen {
        ghost var data := fs.files.Get(name).data;
        var header := fs.Read(name, 0, HEADER_SIZE);
        if |header| == HEADER_SIZE {
          assert header == data[..HEADER_SIZE];
          SameFields(header, data);
          if NumberAt(header, 0) == FILE_MAGIC && NumberAt(header, 8) == staging.Length {
            valid := PayloadMatches(name, staging.Length, WordAt(header, 12));
            gen := NumberAt(header, 4);
          }
        }
      }
    }

    lemma SameFields(header: Block, data: Block)
      requires |header| == HEADER_SIZE <= |data| && header == data[..HEADER_SIZE]
      ensures NumberAt(header, 0) == NumberAt(data, 0) && NumberAt(header, 4) == NumberAt(data, 4)
      ensures NumberAt(header, 8) == NumberAt(data, 8) && WordAt(header, 12) == WordAt(data, 12)
    {
      NumberMoves(header[0..4], data, 0);
      NumberMoves(header[0..4], header, 0);
      NumberMoves(header[4..8], data, 4);
      NumberMoves(header[4..8], header, 4);
      NumberMoves(header[8..12], data, 8);
      NumberMoves(header[8..12], header, 8);
      WordMoves(header[12..16], data, 12);
      WordMoves(header[12..16], header, 12);
    }

    /** Start-up on a mounted file system. */
    method Begin() returns (ok: bool)
      requires Valid()
      modifies this, staging
      ensures ok == fs.on && Valid()
      ensures ok ==> initialized && View() == BeginResult(fs.files, staging.Length)
    {
      hide ValidFile, Newer, NumberAt;
      if !fs.on {
        return false;
      }
      var aValid, aGen := CheckFile(FileA);
      var bValid, bGen := CheckFile(FileB);
      var active: Name;
      if aValid && bValid {
        if Newer(aGen, bGen) {
          active, generation := FileA, aGen;
        } else {
          active, generation := FileB, bGen;
        }
      } else if aValid {
        active, generation := FileA, aGen;
      } else if bValid {
        active, generation := FileB, bGen;
      } else {
        FillBuffer(staging, Fill(staging.Length, 0));
        generation := 0;
        initialized := true;
        return true;
      }
      ValidIsPresent(fs.files.Get(active), staging.Length);
      var payload := fs.Read(active, HEADER_SIZE, staging.Length);
      // The file was read in full a moment ago, so this read is whole too.
      assert |payload| == staging.Length;
      FillBuffer(staging, payload);
      initialized := true;
      ok := true;
    }

    lemma ValidIsPresent(f: File, capacity: uint32)
      requires ValidFile(f, capacity)
      ensures f.Present? && |f.data| >= HEADER_SIZE + capacity
    {
    }

    method Read(offset: nat, length: nat) returns (ok: bool, out: Block)
      ensures ok <==> initialized && offset <= staging.Length && length <= staging.Length - offset
      ensures ok ==> out == staging[offset..offset + length]
    {
      if !initialized {
        return false, [];
      }
      ok, out := ReadBuffer(staging, offset, length);
    }

    method Write(offset: nat, input: Block) returns (ok: bool)
      modifies staging
      ensures ok <==> initialized && offset <= staging.Length && |input| <= staging.Length - offset
      ensures staging[..] == if ok then Splice(old(staging[..]), offset, input) else old(staging[..])
    {
      if !initialized {
        return false;
      }
      ok := WriteBuffer(staging, offset, input);
    }

    /** Opens, writes and closes the whole file, header first. */
    method WriteFile(name: Name, nextGen: uint32, sum: bv32) returns (ok: bool)
      requires Valid() && sum == RawChecksum(staging[..])
      modifies fs
      ensures fs.files == old(fs.files).Put(name, fs.files.Get(name)) && (fs.on ==> old(fs.on))
      ensures ok ==> old(fs.on)
      ensures !old(fs.on) ==> fs.files == old(fs.files)
      ensures Leaves(old(fs.files.Get(name)), FileRecord(nextGen, staging[..]), fs.files.Get(name))
      ensures ok ==> fs.files.Get(name).Present? && Leaves(Absent, FileRecord(nextGen, staging[..]), fs.files.Get(name))
      ensures old(fs.Steady(1 + HEADER_SIZE + staging.Length)) ==>
                ok && fs.on && fs.files.Get(name) == Present(FileRecord(nextGen, staging[..]))
                && fs.faults == 0 && fs.budget == old(fs.budget) - (1 + HEADER_SIZE + staging.Length)
    {
      hide NumberAt, WordAt, NumberBytes, WordBytes, RawChecksum, Damaged;
      ghost var record := FileRecord(nextGen, staging[..]);
      ok := fs.OpenWrite(name);
      if !ok {
        return false;
      }
      var header := NumberBytes(FILE_MAGIC) + NumberBytes(nextGen) + NumberBytes(staging.Length) + WordBytes(sum);
      assert header == Header(nextGen, staging[..]);
      var n := fs.Append(name, header);
      if n != HEADER_SIZE {
        CloseShort(name, record);
        return false;
      }
      assert fs.files.Get(name).data == header;
      n := fs.Append(name, staging[..]);
      if n != staging.Length {
        CloseShort(name, record);
        return false;
      }
      assert fs.files.Get(name).data == record;
      fs.CloseWritten(name);
    }

    /** Writes the next generation to the other file and accepts it only after reading
        the whole of it back. When nothing goes wrong it succeeds. */
    method Commit() returns (ok: bool)
      requires Valid()
      modifies this, fs
      ensures Valid() && initialized == old(initialized)
      ensures if initialized then CommitCall(old(View()), View(), ok) else !ok && View() == old(View())
      ensures initialized && old(fs.Steady(1 + HEADER_SIZE + staging.Length)) ==>
                ok && fs.on && fs.faults == 0 && fs.budget == old(fs.budget) - (1 + HEADER_SIZE + staging.Length)
    {
      hide NumberAt, WordAt, RawChecksum, Damaged, FileRecord, ValidFile, Leaves;
      if !initialized {
        return false;
      }
      var nextGen := Succ(generation);
      var inactive := if nextGen % 2 == 1 then FileA else FileB;
      var sum := FileCrc(staging[..], ONES);
      SumIsRaw(staging[..], sum);
      ghost var before := fs.files.Get(inactive);
      ok := WriteFile(inactive, nextGen, sum);
      if ok {
        ok := ReadBack(inactive, nextGen, sum);
      }
      if ok {
        OnlyWholeRecords(Absent, nextGen, staging[..], fs.files.Get(inactive));
        generation := nextGen;
      }
    }

    /** Not provisional: file A goes and then file B, before any replacement exists, and
        whether they went is not looked at. Losing power after A keeps B; only a medium
        that refuses a removal keeps a file and its power. */
    method Erase() returns (ok: bool, ghost goneA: bool, ghost goneB: bool)
      requires Valid()
      modifies this, staging, fs
      ensures Valid() && ok && initialized
      ensures EraseCall(old(View()), View(), goneA, goneB)
      ensures !fs.flaky ==> InOrder(View(), goneA, goneB)
      ensures old(fs.Steady(2)) ==> goneA && goneB && fs.on && fs.faults == 0 && fs.budget == old(fs.budget) - 2
    {
      initialized := false;
      var first := fs.Remove(FileA);
      var second := fs.Remove(FileB);
      goneA, goneB := first, second;
      FillBuffer(staging, Fill(staging.Length, 0));
      generation := 0;
      initialized := true;
      ok := true;
    }

    /** Closing a file cut short leaves it short. */
    method CloseShort(name: Name, ghost record: Block)
      requires fs.files.Get(name).Present? && |fs.files.Get(name).data| < |record|
      modifies fs
      ensures fs.files == old(fs.files).Put(name, fs.files.Get(name)) && fs.on == old(fs.on)
      ensures fs.files.Get(name).Present? && |fs.files.Get(name).data| < |record|
    {
      fs.CloseWritten(name);
    }

    /** The whole new file, read back: header fields and payload checksum must match. */
    method ReadBack(name: Name, nextGen: uint32, sum: bv32) returns (ok: bool)
      requires Valid()
      ensures ok ==> ValidFile(fs.files.Get(name), staging.Length) && fs.on
      ensures (fs.on && sum == RawChecksum(staging[..])
               && fs.files.Get(name) == Present(FileRecord(nextGen, staging[..]))) ==> ok
    {
      hide NumberAt, WordAt, RawChecksum, Header;
      if fs.files.Get(name) == Present(FileRecord(nextGen, staging[..])) {
        WholeFields(nextGen, staging[..], fs.files.Get(name).data);
      }
      var isOpen := fs.OpenRead(name);
      if !isOpen {
        return false;
      }
      var header := fs.Read(name, 0, HEADER_SIZE);
      if |header| != HEADER_SIZE {
        return false;
      }
      SameFields(header, fs.files.Get(name).data);
      if NumberAt(header, 0) != FILE_MAGIC || NumberAt(header, 4) != nextGen
         || NumberAt(header, 8) != staging.Length || WordAt(header, 12) != sum {
        return false;
      }
      ok := PayloadMatches(name, NumberAt(header, 8), WordAt(header, 12));
    }

    lemma WholeFields(gen: uint32, payload: Block, data: Block)
      requires |payload| < WORD_LIMIT && data == FileRecord(gen, payload)
      ensures |data| == HEADER_SIZE + |payload| && data[HEADER_SIZE..HEADER_SIZE + |payload|] == payload
      ensures NumberAt(data, 0) == FILE_MAGIC && NumberAt(data, 4) == gen
      ensures NumberAt(data, 8) == |payload| && WordAt(data, 12) == RawChecksum(payload)
    {
      hide NumberAt, WordAt, RawChecksum, Header;
      assert data[..HEADER_SIZE] == Header(gen, payload);
      HeaderFields(gen, payload, data);
    }

    lemma SumIsRaw(data: Block, sum: bv32)
      requires sum == Run(ONES, data)
      ensures sum == RawChecksum(data)
    {
    }
  }
}
