/** The storage adapters Protocol runs on, behind one interface: two-file flash
    storage, whole-blob NVS storage and plain memory. */
module Backends {
  import opened Bytes
  import opened Buffers
  import opened Options
  import opened Media
  import opened InternalFS
  import FileImage

  /** A key-value store with one blob: a put is stored whole or not at all. A flaky one
      may refuse a put or lose power in it. */
  class Preferences {
    const flaky: bool
    var blob: Option<Block>
    var on: bool

    method GetBytes() returns (ok: bool, data: Block)
      ensures ok == (on && blob.Some?)
      ensures ok ==> data == blob.value
    {
      ok := on && blob.Some?;
      data := if ok then blob.value else [];
    }

    method PutBytes(data: Block) returns (ok: bool)
      modifies this
      ensures on ==> old(on)
      ensures blob == old(blob) || blob == Some(data)
      ensures ok ==> blob == Some(data)
      ensures old(on) && !flaky ==> ok && on
    {
      var refused: bool, cut: bool := *, *;
      if !on || (flaky && refused) {
        return false;
      }
      blob := Some(data);
      on := !flaky || !cut;
      ok := on;
    }
  }

  /** NVS storage: everything is provisional in the shadow until one blob is put. */
  class NVSStorage {
    const prefs: Preferences
    const shadow: array<byte>

    ghost predicate Valid()
      reads this
    {
      shadow.Length == NVS_CAPACITY
    }

    constructor (prefs: Preferences)
      ensures Valid() && this.prefs == prefs && fresh(shadow) && shadow[..] == Fill(NVS_CAPACITY, 0xFF)
    {
      this.prefs := prefs;
      shadow := new byte[NVS_CAPACITY](_ => 0xFF);
    }

    method Begin() returns (ok: bool)
      requires Valid()
      modifies shadow
      ensures ok == prefs.on
      ensures ok ==> shadow[..] == Staged(NvsMedium(prefs.blob), NVS_CAPACITY)
    {
      if !prefs.on {
        return false;
      }
      var found, data := prefs.GetBytes();
      if found && |data| == NVS_CAPACITY {
        FillBuffer(shadow, data);
      } else {
        FillBuffer(shadow, Fill(NVS_CAPACITY, 0xFF));
      }
      ok := true;
    }

    method Commit() returns (ok: bool)
      requires Valid()
      modifies prefs
      ensures CommitEffect(NvsMedium(old(prefs.blob)), shadow[..], NvsMedium(prefs.blob), ok)
      ensures old(prefs.on) && !prefs.flaky ==> ok && prefs.on
    {
      ok := prefs.PutBytes(shadow[..]);
    }

    method Erase() returns (ok: bool)
      requires Valid()
      modifies shadow
      ensures ok && shadow[..] == Fill(NVS_CAPACITY, 0xFF)
    {
      FillBuffer(shadow, Fill(NVS_CAPACITY, 0xFF));
      ok := true;
    }
  }

  /** Storage that is lost with the power. */
  class MemoryStorage {
    const buffer: array<byte>

    constructor (buffer: array<byte>)
      modifies buffer
      ensures this.buffer == buffer && buffer[..] == Fill(buffer.Length, 0xFF)
    {
      this.buffer := buffer;
      new;
      FillBuffer(buffer, Fill(buffer.Length, 0xFF));
    }
  }

  /** The storage a Protocol was given. */
  datatype Storage = OnFiles(fs: InternalFSStorage) | OnNvs(nvs: NVSStorage) | InRam(ram: MemoryStorage) {

    ghost predicate Valid()
      reads if OnFiles? then {fs} else if OnNvs? then {nvs} else {ram}
    {
      match this
      case OnFiles(fs) => fs.Valid() && fs.initialized
      case OnNvs(nvs) => nvs.Valid()
      case InRam(ram) => ram.buffer.Length < WORD_LIMIT
    }

    /** The RAM every read and write goes to. */
    function Buffer(): array<byte> {
      match this
      case OnFiles(fs) => fs.staging
      case OnNvs(nvs) => nvs.shadow
      case InRam(ram) => ram.buffer
    }

    function Size(): nat { Buffer().Length }

    ghost function Contents(): Block
      reads Buffer()
    {
      Buffer()[..]
    }

    ghost function Device(): set<object> {
      match this
      case OnFiles(fs) => {fs, fs.fs}
      case OnNvs(nvs) => {nvs, nvs.prefs}
      case InRam(ram) => {ram}
    }

    ghost function Durable(): Medium
      reads Device()
    {
      match this
      case OnFiles(fs) => FilesMedium(fs.fs.files, fs.generation, fs.fs.on)
      case OnNvs(nvs) => NvsMedium(nvs.prefs.blob)
      case InRam(_) => NoMedium
    }

    /** The work of a commit, and of an erase and a commit. */
    function SaveCost(): nat {
      match this
      case OnFiles(fs) => 1 + FileImage.HEADER_SIZE + fs.staging.Length
      case _ => 0
    }

    function ResetCost(): nat { 2 + SaveCost() }

    /** Nothing goes wrong for the next `cost` units of work. */
    ghost predicate Steady(cost: nat)
      reads Device()
      ensures Steady(cost) ==> forall less: nat :: less <= cost ==> Steady(less)
    {
      match this
      case OnFiles(fs) => fs.fs.Steady(cost)
      case OnNvs(nvs) => nvs.prefs.on && !nvs.prefs.flaky
      case InRam(_) => true
    }

    /** A medium that may refuse a removal although it has power. */
    predicate Refuses() {
      OnFiles? && fs.fs.flaky
    }

    method Read(offset: nat, length: nat) returns (ok: bool, out: Block)
      requires Valid()
      ensures length > 0 ==> (ok <==> offset + length <= Size())
      ensures ok && length > 0 ==> out == Contents()[offset..offset + length]
    {
      match this
      case OnFiles(fs) => ok, out := fs.Read(offset, length);
      case OnNvs(nvs) =>
        if length == 0 {
          return true, [];
        }
        ok, out := ReadBuffer(nvs.shadow, offset, length);
      case InRam(ram) => ok, out := ReadBuffer(ram.buffer, offset, length);
    }

    method Write(offset: nat, input: Block) returns (ok: bool)
      requires Valid()
      modifies Buffer()
      ensures Valid() && Durable() == old(Durable())
      ensures |input| > 0 ==> (ok <==> offset + |input| <= Size())
      ensures Contents() == if ok && |input| > 0 then Splice(old(Contents()), offset, input) else old(Contents())
    {
      match this
      case OnFiles(fs) =>
        ok := fs.Write(offset, input);
        assert ok && |input| == 0 ==> Splice(old(Contents()), offset, input) == old(Contents());
      case OnNvs(nvs) =>
        if |input| == 0 {
          return true;
        }
        ok := WriteBuffer(nvs.shadow, offset, input);
      case InRam(ram) =>
        ok := WriteBuffer(ram.buffer, offset, input);
        assert ok && |input| == 0 ==> Splice(old(Contents()), offset, input) == old(Contents());
    }

    method Commit() returns (ok: bool)
      requires Valid()
      modifies Device()
      ensures Valid()
      ensures CommitEffect(old(Durable()), Contents(), Durable(), ok)
      ensures old(Steady(SaveCost())) ==> ok
      ensures forall more: nat :: old(Steady(SaveCost() + more)) ==> Steady(more)
    {
      match this
      case OnFiles(fs) => ok := fs.Commit();
      case OnNvs(nvs) => ok := nvs.Commit();
      case InRam(_) => ok := true;
    }

    /** Files are removed at once; the other adapters only reset their buffer. */
    method Erase() returns (ok: bool, ghost gone: Removals)
      requires Valid()
      modifies Buffer(), Device()
      ensures Valid() && ok
      ensures Contents() == Fill(Size(), Blank(Durable()))
      ensures EraseEffect(old(Durable()), old(Contents()), gone, Durable())
      ensures OnFiles? && !Refuses() ==> (gone.b ==> gone.a) && (Durable().on ==> gone.b)
      ensures forall more: nat :: old(Steady(2 + more)) ==> Steady(more)
    {
      gone := Removals(false, false);
      match this
      case OnFiles(fs) =>
        ghost var goneA, goneB;
        ok, goneA, goneB := fs.Erase();
        gone := Removals(goneA, goneB);
      case OnNvs(nvs) => ok := nvs.Erase();
      case InRam(ram) =>
        FillBuffer(ram.buffer, Fill(ram.buffer.Length, 0xFF));
        ok := true;
    }
  }
}
