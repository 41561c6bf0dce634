/** The VIA protocol core: persistent state in flat memory, its save, load and factory
    reset, the host commands and the response pipeline. */
module ViaProtocol {
  import opened Bytes
  import opened Buffers
  import opened Crc32
  import opened Options
  import opened Media
  import opened Backends
  import opened StateRecord
  import opened RecordWriter
  import opened Layout
  import opened Handlers
  import opened KeymapAccess
  import opened Commands
  import Durability

  /** Whether a request and its reply make an accepted bootloader request. */
  predicate JumpAccepted(q: Packet, a: Packet, enabled: bool) {
    enabled && q[0] == 0x0B && a[0] != 0xFF
  }

  /** How many of the answered requests were accepted bootloader requests. */
  function AcceptedJumps(received: seq<Packet>, replies: seq<Packet>, enabled: bool): (n: nat)
    requires |replies| <= |received|
  {
    if replies == [] then 0
    else
      var k := |replies| - 1;
      AcceptedJumps(received, replies[..k], enabled)
      + if JumpAccepted(received[k], replies[k], enabled) then 1 else 0
  }

  lemma AcceptedStep(received: seq<Packet>, replies: seq<Packet>, a: Packet, enabled: bool)
    requires |replies| < |received|
    ensures AcceptedJumps(received, replies + [a], enabled)
            == AcceptedJumps(received, replies, enabled)
               + if JumpAccepted(received[|replies|], a, enabled) then 1 else 0
  {
    hide JumpAccepted;
    assert (replies + [a])[..|replies|] == replies;
  }

  lemma AcceptedPrefix(received: seq<Packet>, more: seq<Packet>, replies: seq<Packet>, enabled: bool)
    requires |replies| <= |received| && received <= more
    ensures AcceptedJumps(more, replies, enabled) == AcceptedJumps(received, replies, enabled)
  {
    if replies != [] {
      AcceptedPrefix(received, more, replies[..|replies| - 1], enabled);
    }
  }

  /** A success reply means what it says: the save was made, the reset was made, nothing
      is unsaved before a bootloader jump. */
  ghost predicate Honest(c: Durability.Setup, s: Durability.System, q: Packet, s': Durability.System, a: Packet) {
    && Durability.Sized(c, s)
    && (q[0] == 0x09 && a[0] != 0xFF ==> !s'.dirty && Durability.SaveEffect(c, s, s', true))
    && (q[0] == 0x0A && a[0] != 0xFF ==>
          !s'.dirty && exists factory, how :: Durability.ResetEffect(c, s, factory, how, s', true))
    && (q[0] == 0x0B && a[0] != 0xFF ==> !s'.dirty)
  }

  class Protocol {
    const config: Config
    const transport: Transport
    const ram: array<byte>
    const storage: Option<Storage>
    const custom: CustomValue?
    const callbacks: Callbacks?
    var dirty: bool
    var saveAt: uint32
    var layoutOptions: bv32
    const pendingResponse: array<byte>
    var responsePending: bool
    var bootloaderPending: bool
    ghost var replies: seq<Packet>
    ghost const jumpsBefore: nat
    ghost const powerUp: Block
    ghost const resets: Block -> Block

    ghost function Footprint(): set<object> {
      {ram, pendingResponse}
      + (if storage.Some? then {storage.value.Buffer()} + storage.value.Device() else {})
      + (if custom != null then {custom} else {})
    }

    /** Buffers are mapped and separate, and the parts are different objects. */
    ghost predicate Valid()
      reads Footprint()
    {
      && pendingResponse.Length == PACKET_SIZE && ram != pendingResponse
      && Mapped(config, ram.Length) && Separate(config)
      && (transport.slot != null ==>
            && transport.slot.requestBuffer != ram && transport.slot.requestBuffer != pendingResponse
            && (storage.Some? ==> transport.slot.requestBuffer != storage.value.Buffer()))
      && |powerUp| == CustomSize() && (custom != null ==> custom.Valid() && custom.resets == resets)
      && (storage.Some? ==>
            && storage.value.Valid()
            && storage.value.Buffer() != ram && storage.value.Buffer() != pendingResponse)
    }

    constructor (config: Config, transport: Transport, ram: array<byte>, storage: Option<Storage>,
                 custom: CustomValue?, callbacks: Callbacks?)
      requires Mapped(config, ram.Length) && Separate(config)
      requires custom != null ==> custom.Valid()
      requires storage.Some? ==> storage.value.Valid() && storage.value.Buffer() != ram
      requires transport.received == [] && transport.sent == [] && transport.attempts == []
      requires transport.slot != null ==>
                 && transport.slot.requestBuffer != ram
                 && (storage.Some? ==> transport.slot.requestBuffer != storage.value.Buffer())
      ensures Valid() && PipelineInv() && fresh(pendingResponse)
      ensures this.config == config && this.ram == ram && this.storage == storage && this.custom == custom
      ensures this.transport == transport && this.callbacks == callbacks && Idle()
      ensures !dirty && layoutOptions == config.defaultLayoutOptions && powerUp == CustomBytes()
    {
      hide KeymapBytes, EncoderMapBytes, Overlap, RangesOverlap;
      this.config, this.transport, this.ram := config, transport, ram;
      this.storage, this.custom, this.callbacks := storage, custom, callbacks;
      dirty, saveAt, layoutOptions := false, 0, config.defaultLayoutOptions;
      pendingResponse := new byte[PACKET_SIZE](_ => 0);
      responsePending, bootloaderPending := false, false;
      replies := [];
      jumpsBefore := if callbacks == null then 0 else callbacks.bootloader.jumps;
      powerUp := if custom == null then [] else custom.active;
      if custom == null {
        resets := b => b;
      } else {
        resets := custom.resets;
      }
    }

    ghost function CustomBytes(): Block
      reads custom
    {
      if custom == null then [] else custom.active
    }

    function CustomSize(): nat {
      if custom == null then 0 else custom.size
    }

    /** The state a save records. */
    ghost function Live(): (p: Block)
      requires Valid()
      reads this`layoutOptions, Footprint()
      ensures |p| == CoreBytes(config) + CustomSize()
    {
      Core(config, ram[..], layoutOptions) + CustomBytes()
    }

    predicate AcceptsCustom(state: Block)
    {
      |state| == CustomSize() && (CustomSize() == 0 || custom.accepts(state))
    }

    /** Whether the handler accepts the custom bytes at the end of a payload. */
    function Accepts(): Block -> bool {
      p => |p| >= CoreBytes(config) && AcceptsCustom(p[CoreBytes(config)..])
    }

    /** Storage, record size and workspace suit each other. */
    predicate Persistent() {
      && storage.Some? && StateBytes(config, CustomSize()).Some?
      && storage.value.Size() >= STATE_HEADER + StateBytes(config, CustomSize()).value
      && storage.value.Size() < WORD_LIMIT
    }

    /** The handler, if it keeps state, never refuses to save it. */
    predicate Saves() {
      CustomSize() == 0 || (custom != null && custom.saves)
    }

    ghost function Setup(): (c: Durability.Setup)
      requires Valid() && Persistent()
      reads Footprint()
      ensures c.Fits() && c.size == CoreBytes(config) + CustomSize() && c.capacity == storage.value.Size()
      ensures c.saves == Saves()
    {
      Durability.Setup(storage.value.Size(), StateBytes(config, CustomSize()).value, CoreBytes(config),
                       DefaultCore(config, ram[..]) + Rewritten(resets, powerUp), resets, Saves(), Accepts())
    }

    ghost function View(): (s: Durability.System)
      requires Valid() && storage.Some?
      reads this`layoutOptions, this`dirty, Footprint()
      ensures |s.live| == CoreBytes(config) + CustomSize() && |s.staged| == storage.value.Size() && s.dirty == dirty
    {
      Durability.System(storage.value.Durable(), storage.value.Contents(), Live(), dirty)
    }

    /** The register over a range of memory, byte by byte. */
    method SumRange(seed: bv32, r: Region) returns (crc: bv32)
      requires r.Within(ram.Length)
      ensures crc == Run(seed, Slice(ram[..], r))
    {
      hide Absorb;
      crc := seed;
      for i := 0 to r.size
        invariant crc == Run(seed, ram[r.at..r.at + i])
      {
        assert ram[r.at..r.at + i + 1] == ram[r.at..r.at + i] + [ram[r.at + i]];
        RunOne(seed, ram[r.at..r.at + i], ram[r.at + i]);
        crc := MaskedUpdate(crc, ram[r.at + i]);
      }
    }

    method SumBytes(seed: bv32, s: Block) returns (crc: bv32)
      ensures crc == Run(seed, s)
    {
      hide Absorb;
      crc := seed;
      for i := 0 to |s|
        invariant crc == Run(seed, s[..i])
      {
        assert s[..i + 1] == s[..i] + [s[i]];
        RunOne(seed, s[..i], s[i]);
        crc := MaskedUpdate(crc, s[i]);
      }
      assert s[..|s|] == s;
    }

    lemma RunOne(seed: bv32, s: Block, b: byte)
      ensures Run(seed, s + [b]) == Absorb(Run(seed, s), b)
    {
      hide Absorb;
      assert (s + [b])[..|s|] == s;
    }

    /** Summing the pieces of the state one after another is summing the payload. */
    method StateCrc(customState: Block) returns (crc: bv32)
      requires Valid()
      ensures crc == Checksum(Core(config, ram[..], layoutOptions) + customState)
    {
      hide Run, WordBytes;
      var k, e, m := Keymap(config), EncoderMap(config), Macros(config);
      ghost var sk, se, sm, sl := Slice(ram[..], k), Slice(ram[..], e), Slice(ram[..], m), WordBytes(layoutOptions);
      crc := SumRange(ONES, k);
      crc := SumRange(crc, e);
      RunAppend(ONES, sk, se);
      crc := SumRange(crc, m);
      RunAppend(ONES, sk + se, sm);
      crc := SumBytes(crc, WordBytes(layoutOptions));
      RunAppend(ONES, sk + se + sm, sl);
      crc := SumBytes(crc, customState);
      RunAppend(ONES, sk + se + sm + sl, customState);
      crc := !crc;
    }

    // ----- saving

    /** Storage traffic does not touch the live state. */
    twostate lemma StorageOnly()
      requires old(Valid()) && storage.Some? && storage.value.Valid()
      requires unchanged(ram) && unchanged(pendingResponse) && layoutOptions == old(layoutOptions)
      requires custom != null ==> unchanged(custom)
      ensures Valid() && Live() == old(Live())
      ensures Persistent() ==> Setup() == old(Setup())
    {
      hide KeymapBytes, EncoderMapBytes, Overlap, RangesOverlap, Separate, WordBytes, Slice;
      assert ram[..] == old(ram[..]);
    }

    /** Stages the record of the live state: the header without checksum, the payload
        piece by piece, then the final header. */
    method StageLive() returns (ok: bool)
      requires Valid() && storage.Some?
      modifies storage.value.Buffer()
      ensures Valid() && Live() == old(Live()) && storage.value.Durable() == old(storage.value.Durable())
      ensures !ok ==> storage.value.Contents() == old(storage.value.Contents())
      ensures Persistent() && Saves() ==> ok
      ensures ok ==> Persistent() && Setup() == old(Setup()) && |Live()| == StateBytes(config, CustomSize()).value
                     && storage.value.Contents() == Splice(old(storage.value.Contents()), 0, RecordOf(Live()))
    {
      hide Run, Checksum, RecordOf, HeaderBytes, WordBytes, KeymapBytes, EncoderMapBytes, Slice, Overlap, RangesOverlap,
           Splice, Separate;
      var st := storage.value;
      var sized := StateBytes(config, CustomSize());
      if sized == None {
        return false;
      }
      var bytes := sized.value;
      if st.Size() < STATE_HEADER + bytes {
        return false;
      }
      var customState: Block := [];
      if CustomSize() != 0 {
        var saved;
        saved, customState := custom.SaveState();
        if !saved {
          return false;
        }
      }
      var crc := StateCrc(customState);
      ok := StageRecord(st, bytes, crc, Slice(ram[..], Keymap(config)), Slice(ram[..], EncoderMap(config)),
                        Slice(ram[..], Macros(config)), WordBytes(layoutOptions), customState);
      StorageOnly();
      RecordParts(Live(), crc);
    }

    method WriteState() returns (ok: bool)
      requires Valid() && storage.Some?
      modifies this`dirty, storage.value.Buffer(), storage.value.Device()
      ensures Valid() && dirty == (if ok then false else old(dirty))
      ensures Live() == old(Live())
      ensures !Persistent() ==> !ok && View() == old(View())
      ensures Persistent() ==> Durability.SaveEffect(Setup(), old(View()), View(), ok)
      ensures Persistent() && Saves() && old(storage.value.Steady(storage.value.SaveCost())) ==> ok
      ensures forall more: nat ::
                old(storage.value.Steady(storage.value.SaveCost() + more)) ==> storage.value.Steady(more)
    {
      hide RecordOf, CommitEffect, KeymapBytes, EncoderMapBytes, Overlap, RangesOverlap, Separate, Splice, Core, Slice,
           DefaultCore, Mapped, AcceptsCustom;
      ok := StageLive();
      if !ok {
        return false;
      }
      label staged:
      ok := storage.value.Commit();
      StorageOnly@staged();
      if ok {
        dirty := false;
      }
    }

    lemma RecordParts(payload: Block, crc: bv32)
      requires |payload| < 0x1_0000 && crc == Checksum(payload)
      ensures RecordOf(payload) == HeaderBytes(|payload|, crc) + payload
    {
    }

    // ----- loading

    lemma EmptyCopy(s: Block, at: nat)
      requires at <= |s|
      ensures Splice(s, at, []) == s
    {
    }

    method Memcpy(dst: nat, src: nat, n: nat)
      requires dst + n <= ram.Length && src + n <= ram.Length
      modifies ram
      ensures ram[..] == Splice(old(ram[..]), dst, Slice(old(ram[..]), Region(src, n)))
    {
      hide Splice;
      assert ram[src..src + n] == Slice(ram[..], Region(src, n));
      if n != 0 {
        CopyInto(ram, dst, ram[src..src + n]);
      } else {
        EmptyCopy(ram[..], dst);
      }
    }

    /** The workspace holding a checked payload. */
    function Workspace(bytes: nat): Region { Region(config.loadBuffer, bytes) }

    /** Copies a staged payload over the live keymap, encoder map, macros and options. */
    method Publish(bytes: nat)
      requires Valid() && LoadBufferValid(config, bytes) && bytes >= CoreBytes(config)
      modifies ram, this`layoutOptions
      ensures Valid()
      ensures Core(config, ram[..], layoutOptions) == Slice(old(ram[..]), Workspace(bytes))[..CoreBytes(config)]
      ensures Slice(ram[..], Workspace(bytes)) == Slice(old(ram[..]), Workspace(bytes))
      ensures DefaultCore(config, ram[..]) == DefaultCore(config, old(ram[..]))
    {
      hide KeymapBytes, EncoderMapBytes, Overlap, RangesOverlap, Separate, Splice, Slice, WordBytes, WordAt;
      PublishedExactly(config, ram[..], bytes);
      ghost var p := Slice(ram[..], Workspace(bytes));
      var staged := 0;
      Memcpy(config.keymap, config.loadBuffer + staged, KeymapBytes(config));
      staged := staged + KeymapBytes(config);
      Memcpy(config.encoderMap, config.loadBuffer + staged, EncoderMapBytes(config));
      staged := staged + EncoderMapBytes(config);
      Memcpy(config.macros, config.loadBuffer + staged, config.macroBytes);
      staged := staged + config.macroBytes;
      layoutOptions := WordAt(ram[..], config.loadBuffer + staged);
      OptionsRead(ram[..], Workspace(bytes), staged);
      InParts(p, KeymapBytes(config), KeymapBytes(config) + EncoderMapBytes(config), staged, staged + 4);
    }

    lemma InParts(p: Block, i: nat, j: nat, k: nat, l: nat)
      requires i <= j <= k <= l <= |p|
      ensures p[..l] == p[..i] + p[i..j] + p[j..k] + p[k..l]
    {
    }

    lemma OptionsRead(memory: Block, r: Region, offset: nat)
      requires r.Within(|memory|) && offset + 4 <= r.size
      ensures WordBytes(WordAt(memory, r.at + offset)) == Slice(memory, r)[offset..offset + 4]
    {
      hide WordBytes, WordAt;
      WordUnique(memory, r.at + offset);
      SliceOfSlice(memory, r.at, r.at + r.size, offset, offset + 4);
    }

    function NoticesOf(): seq<Notice>
      reads callbacks
    {
      if callbacks == null then [] else callbacks.notices
    }

    method Notify(notice: Notice)
      modifies callbacks
      ensures NoticesOf() == if callbacks == null then [] else old(NoticesOf()) + [notice]
    {
      if callbacks != null {
        callbacks.Notify(notice);
      }
    }

    /** Filling the workspace touches neither live state nor defaults. */
    method FillWorkspace(bytes: nat, payload: Block)
      requires Valid() && LoadBufferValid(config, bytes) && |payload| == bytes
      modifies ram
      ensures Valid() && Live() == old(Live())
      ensures DefaultCore(config, ram[..]) == DefaultCore(config, old(ram[..]))
      ensures Slice(ram[..], Workspace(bytes)) == payload
    {
      hide KeymapBytes, EncoderMapBytes, Overlap, RangesOverlap, Separate, Splice, Slice, WordBytes;
      CopyInto(ram, config.loadBuffer, payload);
      WorkspaceOnly(old(ram[..]), bytes, payload);
      SliceOfSplice(old(ram[..]), config.loadBuffer, payload, Workspace(bytes));
    }

    /** Reads the record into the workspace and checks it there. */
    method StageStored(bytes: nat) returns (ok: bool)
      requires Valid() && Persistent() && bytes == StateBytes(config, CustomSize()).value
               && LoadBufferValid(config, bytes)
      modifies ram
      ensures Valid() && Live() == old(Live()) && Setup() == old(Setup())
      ensures ok <==> Parse(storage.value.Contents(), bytes).Some?
      ensures ok ==> Slice(ram[..], Workspace(bytes)) == Parse(storage.value.Contents(), bytes).value
    {
      hide KeymapBytes, EncoderMapBytes, Overlap, RangesOverlap, Separate, Splice, HeaderAccepts, WordAt, Run, Checksum,
           Core, DefaultCore, Slice, Parse;
      var st := storage.value;
      ghost var contents := st.Contents();
      var okHeader, header := st.Read(0, STATE_HEADER);
      ParseBySteps(contents, header, contents[STATE_HEADER..STATE_HEADER + bytes], bytes);
      if !HeaderAccepts(header, bytes) {
        return false;
      }
      var okPayload, payload := st.Read(STATE_HEADER, bytes);
      FillWorkspace(bytes, payload);
      var crc := SumRange(ONES, Workspace(bytes));
      ok := !crc == WordAt(header, 8);
      ChecksumOf(payload, crc);
    }

    lemma ChecksumOf(payload: Block, crc: bv32)
      requires crc == Run(ONES, payload)
      ensures !crc == Checksum(payload)
    {
    }

    /** A valid workspace can be filled without touching live state or defaults. */
    lemma WorkspaceOnly(memory: Block, bytes: nat, payload: Block)
      requires Mapped(config, |memory|) && LoadBufferValid(config, bytes) && |payload| == bytes
      ensures forall options ::
                Core(config, Splice(memory, config.loadBuffer, payload), options) == Core(config, memory, options)
      ensures DefaultCore(config, Splice(memory, config.loadBuffer, payload)) == DefaultCore(config, memory)
    {
      hide KeymapBytes, EncoderMapBytes, Overlap, RangesOverlap, Separate, Splice, Slice;
      CopyKeeps(memory, Workspace(bytes), payload, Keymap(config));
      CopyKeeps(memory, Workspace(bytes), payload, EncoderMap(config));
      CopyKeeps(memory, Workspace(bytes), payload, Macros(config));
      CopyKeeps(memory, Workspace(bytes), payload, DefaultKeymap(config));
      CopyKeeps(memory, Workspace(bytes), payload, DefaultEncoderMap(config));
    }

    lemma AcceptsTail(p: Block)
      requires |p| >= CoreBytes(config)
      ensures Accepts()(p) == AcceptsCustom(p[CoreBytes(config)..])
    {
    }

    /** Header, checksum and custom validation, all before any live state changes. */
    method StageAndValidate(bytes: nat) returns (ok: bool)
      requires Valid() && Persistent() && bytes == StateBytes(config, CustomSize()).value
               && LoadBufferValid(config, bytes)
      modifies ram
      ensures Valid() && Live() == old(Live()) && Setup() == old(Setup())
      ensures ok == Durability.LoadFrom(Setup(), storage.value.Contents()).Some?
      ensures ok ==> Some(Slice(ram[..], Workspace(bytes))) == Durability.LoadFrom(Setup(), storage.value.Contents())
    {
      hide KeymapBytes, EncoderMapBytes, Overlap, RangesOverlap, Separate, Slice, Parse, Core, DefaultCore, Accepts;
      ok := StageStored(bytes);
      if !ok {
        return false;
      }
      AcceptsTail(Slice(ram[..], Workspace(bytes)));
      if CustomSize() != 0 {
        ok := custom.ValidateState(CustomPart(bytes));
      }
    }

    /** The custom bytes staged in the workspace. */
    function CustomPart(bytes: nat): (s: Block)
      requires Workspace(bytes).Within(ram.Length) && bytes == CoreBytes(config) + CustomSize()
      reads ram
      ensures s == Slice(ram[..], Workspace(bytes))[CoreBytes(config)..] && |s| == CustomSize()
    {
      PartIsSlice(ram[..], Workspace(bytes), CoreBytes(config), CustomSize());
      Slice(ram[..], Part(Workspace(bytes), CoreBytes(config), CustomSize()))
    }

    /** Publishes an accepted payload from the workspace, custom state first. */
    method PublishAll(bytes: nat) returns (ok: bool)
      requires Valid() && StateBytes(config, CustomSize()) == Some(bytes) && LoadBufferValid(config, bytes)
      requires AcceptsCustom(CustomPart(bytes))
      modifies ram, this`layoutOptions, custom
      ensures ok && Valid() && Live() == Slice(old(ram[..]), Workspace(bytes))
      ensures DefaultCore(config, ram[..]) == DefaultCore(config, old(ram[..]))
    {
      hide KeymapBytes, EncoderMapBytes, Overlap, RangesOverlap, Separate, Slice, Core, DefaultCore;
      ghost var p := Slice(ram[..], Workspace(bytes));
      ok := true;
      if CustomSize() != 0 {
        ok := custom.LoadState(CustomPart(bytes));
      }
      Publish(bytes);
      assert p == p[..CoreBytes(config)] + p[CoreBytes(config)..];
    }

    /** Publishes stored state only after everything was checked. */
    method Load() returns (ok: bool)
      requires Valid()
      modifies ram, this`layoutOptions, this`dirty, custom, callbacks
      ensures Valid()
      ensures var able := Persistent() && LoadBufferValid(config, StateBytes(config, CustomSize()).value);
              if !able then !ok
              else ok == Durability.LoadFrom(Setup(), storage.value.Contents()).Some? && Setup() == old(Setup())
      ensures ok ==> !dirty && Some(Live()) == Durability.LoadFrom(Setup(), storage.value.Contents())
                     && (callbacks != null ==> NoticesOf() == old(NoticesOf()) + [LayoutOptionsChanged(layoutOptions)])
      ensures !ok ==>
                dirty == old(dirty) && layoutOptions == old(layoutOptions) && Live() == old(Live())
                && CustomBytes() == old(CustomBytes()) && NoticesOf() == old(NoticesOf())
    {
      hide KeymapBytes, EncoderMapBytes, Overlap, RangesOverlap, Separate, Slice, Core, DefaultCore, Accepts,
           Durability.LoadFrom;
      var sized := StateBytes(config, CustomSize());
      if storage == None || sized == None {
        return false;
      }
      var bytes := sized.value;
      if !LoadBufferValid(config, bytes) {
        return false;
      }
      if storage.value.Size() < STATE_HEADER + bytes {
        return false;
      }
      ok := StageAndValidate(bytes);
      if !ok {
        return false;
      }
      LoadedIsAccepted(Setup(), storage.value.Contents());
      AcceptsTail(Slice(ram[..], Workspace(bytes)));
      ok := PublishAll(bytes);
      Notify(LayoutOptionsChanged(layoutOptions));
      dirty := false;
    }

    lemma LoadedIsAccepted(c: Durability.Setup, contents: Block)
      ensures var p := Durability.LoadFrom(c, contents);
              p.Some? ==> |p.value| == c.size && c.accepts(p.value)
    {
    }

    // ----- start-up and factory reset

    /** Fills a range with zeros. */
    method Memset(dst: nat, n: nat)
      requires dst + n <= ram.Length
      modifies ram
      ensures ram[..] == Splice(old(ram[..]), dst, Fill(n, 0))
    {
      CopyInto(ram, dst, Fill(n, 0));
    }

    /** The built-in defaults become the live state, and the handler resets its own. */
    method ResetBuffers()
      requires Valid()
      modifies ram, this`layoutOptions, custom
      ensures Valid() && layoutOptions == config.defaultLayoutOptions
      ensures DefaultCore(config, ram[..]) == DefaultCore(config, old(ram[..]))
      ensures Live() == DefaultCore(config, ram[..]) + Rewritten(resets, old(CustomBytes()))
    {
      hide KeymapBytes, EncoderMapBytes, Overlap, RangesOverlap, Separate, Slice, Splice, WordBytes;
      DefaultedExactly(config, ram[..]);
      Memcpy(config.keymap, config.defaultKeymap, KeymapBytes(config));
      Memcpy(config.encoderMap, config.defaultEncoderMap, EncoderMapBytes(config));
      Memset(config.macros, config.macroBytes);
      layoutOptions := config.defaultLayoutOptions;
      if custom != null {
        custom.Reset();
      }
    }

    /** What a start-up on a medium leaves. */
    lemma StartedIs(m: Medium)
      requires Valid() && Persistent() && !dirty
      requires storage.value.Durable() == Rebooted(m, Setup().capacity)
      requires storage.value.Contents() == Staged(m, Setup().capacity)
      requires Live() == Durability.LiveAfter(Setup(), storage.value.Contents())
      ensures View() == Durability.BootState(Setup(), m)
    {
      hide KeymapBytes, EncoderMapBytes, Separate, Core, DefaultCore, Staged, Rebooted, Live, Setup,
           Durability.LiveAfter;
    }

    /** What a start-up refuses: a board without keys, missing buffers, a state too large for
        a record, and storage without a workspace that holds it apart from every buffer. */
    predicate Sane() {
      && config.rows != 0 && config.columns != 0 && config.layers != 0
      && config.keymap != NULL && config.defaultKeymap != NULL
      && (config.macroBytes != 0 ==> config.macros != NULL)
      && (config.encoderCount != 0 ==> config.encoderMap != NULL && config.defaultEncoderMap != NULL)
      && var sized := StateBytes(config, CustomSize());
         sized.Some? && (storage.Some? ==> LoadBufferValid(config, sized.value))
    }

    /** In terms of the configuration's own numbers. */
    lemma SaneMeans()
      ensures var c, custom := config, CustomSize();
              var n := 2 * c.rows * c.columns * c.layers + 4 * c.layers * c.encoderCount + c.macroBytes + 4 + custom;
              Sane() <==>
                && c.rows > 0 && c.columns > 0 && c.layers > 0 && c.keymap != 0 && c.defaultKeymap != 0
                && (c.macroBytes == 0 || c.macros != 0)
                && (c.encoderCount == 0 || (c.encoderMap != 0 && c.defaultEncoderMap != 0))
                && custom <= 16 && 12 + n <= 65535
                && (storage == None || (c.loadBuffer != 0 && n <= c.loadBufferBytes && Disjoint(n)))
    {
      hide StateBytes, KeymapBytes, EncoderMapBytes, RangesOverlap;
      StateSize(config, CustomSize());
      if StateBytes(config, CustomSize()).Some? {
        DisjointIs(StateBytes(config, CustomSize()).value);
      }
    }

    /** No byte of the workspace belongs to a buffer. */
    ghost predicate Disjoint(n: int) {
      forall x: nat :: config.loadBuffer <= x < config.loadBuffer + n ==>
        !Keymap(config).Has(x) && !DefaultKeymap(config).Has(x) && !EncoderMap(config).Has(x)
        && !DefaultEncoderMap(config).Has(x) && !Macros(config).Has(x)
    }

    lemma DisjointIs(n: nat)
      ensures LoadBufferValid(config, n) <==> config.loadBuffer != 0 && n <= config.loadBufferBytes && Disjoint(n)
    {
      hide KeymapBytes, EncoderMapBytes, RangesOverlap, Overlap;
      var load := Region(config.loadBuffer, n);
      OverlapIsSharedAddress(load, Keymap(config));
      OverlapIsSharedAddress(load, DefaultKeymap(config));
      OverlapIsSharedAddress(load, EncoderMap(config));
      OverlapIsSharedAddress(load, DefaultEncoderMap(config));
      OverlapIsSharedAddress(load, Macros(config));
      assert forall x: nat :: load.Has(x) <==> config.loadBuffer <= x < config.loadBuffer + n;
    }

    /** A start-up: stored state if there is any acceptable, else the defaults and what the
        handler's reset makes of the bytes it had at power-up. */
    method Begin(nowMs: uint32) returns (ok: bool)
      requires Valid()
      modifies this`layoutOptions, this`dirty, this`saveAt, ram, custom, callbacks
      ensures Valid() && ok == Sane()
      ensures ok ==> !dirty && saveAt == (nowMs + config.autoSaveMs) % WORD_LIMIT
      ensures ok && Persistent() ==>
                var stored := Durability.LoadFrom(Setup(), storage.value.Contents());
                && Setup() == old(Setup())
                && Live() == if stored.Some? then stored.value
                             else DefaultCore(config, ram[..]) + Rewritten(resets, old(CustomBytes()))
      ensures ok && Persistent() && old(CustomBytes()) == powerUp ==>
                Live() == Durability.LiveAfter(Setup(), storage.value.Contents())
      ensures ok && !Persistent() ==> Live() == DefaultCore(config, ram[..]) + Rewritten(resets, old(CustomBytes()))
      ensures ok && callbacks != null ==> NoticesOf() == old(NoticesOf()) + [LayoutOptionsChanged(layoutOptions)]
    {
      hide KeymapBytes, EncoderMapBytes, Overlap, RangesOverlap, Separate, Slice, Core, DefaultCore, Mapped,
           AcceptsCustom, Durability.LoadFrom;
      if !Sane() {
        return false;
      }
      var loaded := Load();
      if !loaded {
        ResetBuffers();
        Notify(LayoutOptionsChanged(layoutOptions));
      }
      dirty := false;
      saveAt := (nowMs + config.autoSaveMs) % WORD_LIMIT;
      ok := true;
    }

    /** Built-in defaults, zero macros and default options, piece by piece. */
    method StageCoreDefaults(bytes: nat)
      requires Valid() && StateBytes(config, CustomSize()) == Some(bytes) && LoadBufferValid(config, bytes)
      modifies ram
      ensures Valid() && Core(config, ram[..], layoutOptions) == Core(config, old(ram[..]), layoutOptions)
      ensures DefaultCore(config, ram[..]) == DefaultCore(config, old(ram[..]))
      ensures Slice(ram[..], Workspace(bytes))[..CoreBytes(config)] == DefaultCore(config, ram[..])
    {
      hide KeymapBytes, EncoderMapBytes, Overlap, RangesOverlap, Separate, Slice, Splice, WordBytes, Core, Fill;
      assert Slice(ram[..], Workspace(bytes))[..0] == [];
      StageNext(bytes, 0, Slice(ram[..], DefaultKeymap(config)));
      var staged := KeymapBytes(config);
      StageNext(bytes, staged, Slice(ram[..], DefaultEncoderMap(config)));
      staged := staged + EncoderMapBytes(config);
      StageNext(bytes, staged, Fill(config.macroBytes, 0));
      staged := staged + config.macroBytes;
      StageNext(bytes, staged, WordBytes(config.defaultLayoutOptions));
    }

    /** Stages the factory payload in the workspace: the defaults, then what the handler's
        reset made of its bytes, or zeros when that cannot be saved. */
    method StageDefaults(bytes: nat)
      requires Valid() && StateBytes(config, CustomSize()) == Some(bytes) && LoadBufferValid(config, bytes)
      modifies ram, custom
      ensures Valid() && layoutOptions == old(layoutOptions)
      ensures Core(config, ram[..], layoutOptions) == Core(config, old(ram[..]), layoutOptions)
      ensures DefaultCore(config, ram[..]) == DefaultCore(config, old(ram[..]))
      ensures Slice(ram[..], Workspace(bytes))[..CoreBytes(config)] == DefaultCore(config, ram[..])
      ensures CustomBytes() == Rewritten(resets, old(CustomBytes()))
      ensures CustomPart(bytes) == CustomBytes() || (!Saves() && CustomPart(bytes) == Fill(CustomSize(), 0))
    {
      hide KeymapBytes, EncoderMapBytes, Overlap, RangesOverlap, Separate, Slice, Splice, WordBytes, Core, DefaultCore,
           Fill;
      StageCoreDefaults(bytes);
      if CustomSize() != 0 {
        StageCustom(bytes, CoreBytes(config));
      }
    }

    /** Copies one piece behind those already staged. */
    method StageNext(bytes: nat, staged: nat, piece: Block)
      requires Valid() && LoadBufferValid(config, bytes) && staged + |piece| <= bytes
      modifies ram
      ensures Valid() && Core(config, ram[..], layoutOptions) == Core(config, old(ram[..]), layoutOptions)
      ensures Slice(ram[..], DefaultKeymap(config)) == Slice(old(ram[..]), DefaultKeymap(config))
      ensures Slice(ram[..], DefaultEncoderMap(config)) == Slice(old(ram[..]), DefaultEncoderMap(config))
      ensures Slice(ram[..], Workspace(bytes))[..staged + |piece|]
              == Slice(old(ram[..]), Workspace(bytes))[..staged] + piece
    {
      hide KeymapBytes, EncoderMapBytes, Overlap, RangesOverlap, Separate, Slice, Splice, WordBytes, Core;
      StagePiece(config, ram[..], bytes, staged, piece);
      CopyInto(ram, config.loadBuffer + staged, piece);
    }

    /** The custom part of the factory payload. */
    method StageCustom(bytes: nat, staged: nat)
      requires Valid() && StateBytes(config, CustomSize()) == Some(bytes) && LoadBufferValid(config, bytes)
      requires custom != null && CustomSize() != 0 && staged == CoreBytes(config)
      modifies ram, custom
      ensures Valid() && custom.active == Rewritten(custom.resets, old(custom.active))
      ensures Core(config, ram[..], layoutOptions) == Core(config, old(ram[..]), layoutOptions)
      ensures DefaultCore(config, ram[..]) == DefaultCore(config, old(ram[..]))
      ensures Slice(ram[..], Workspace(bytes))[..CoreBytes(config)]
              == Slice(old(ram[..]), Workspace(bytes))[..CoreBytes(config)]
      ensures CustomPart(bytes) == CustomBytes() || (!custom.saves && CustomPart(bytes) == Fill(CustomSize(), 0))
    {
      hide KeymapBytes, EncoderMapBytes, Overlap, RangesOverlap, Separate, Slice, Splice, WordBytes, Core, Fill;
      custom.Reset();
      var saved, state := custom.SaveState();
      if !saved {
        state := Fill(CustomSize(), 0);
      }
      StagePiece(config, ram[..], bytes, staged, state);
      CopyInto(ram, config.loadBuffer + staged, state);
      assert Slice(ram[..], Workspace(bytes))[..bytes] == Slice(ram[..], Workspace(bytes));
    }

    /** Erases storage, stages the payload in the workspace as a record and commits it. */
    method StoreFactory(bytes: nat) returns (ok: bool, ghost gone: Removals, ghost mid: Medium)
      requires Valid() && Persistent() && StateBytes(config, CustomSize()) == Some(bytes)
               && LoadBufferValid(config, bytes)
      modifies storage.value.Buffer(), storage.value.Device()
      ensures Valid() && Live() == old(Live())
      ensures ram[..] == old(ram[..])
      ensures var st := storage.value;
              && EraseEffect(old(st.Durable()), old(st.Contents()), gone, mid)
              && st.Contents() == Splice(Fill(st.Size(), Blank(mid)), 0, RecordOf(Slice(ram[..], Workspace(bytes))))
              && CommitEffect(mid, st.Contents(), st.Durable(), ok)
              && (old(st.Steady(st.ResetCost())) ==> ok)
              && (forall more: nat :: old(st.Steady(st.ResetCost() + more)) ==> st.Steady(more))
              && (!st.Refuses() && mid.FilesMedium? ==> (gone.b ==> gone.a) && (mid.on ==> gone.b))
    {
      hide Run, Checksum, RecordOf, HeaderBytes, CommitEffect, EraseEffect, KeymapBytes, EncoderMapBytes, Overlap,
           RangesOverlap, Separate, Splice, Slice, Core, Fill, Live, Setup;
      var st := storage.value;
      var payload := Slice(ram[..], Workspace(bytes));
      var crc := SumRange(ONES, Workspace(bytes));
      ChecksumOf(payload, crc);
      RecordParts(payload, !crc);
      ok, gone := st.Erase();
      mid := st.Durable();
      ok := StageWhole(st, payload, !crc);
      ok := st.Commit();
      StorageOnly();
      assert ram[..] == old(ram[..]);
    }

    /** The staged factory payload, or a refusal by the custom handler. */
    method StageFactory(bytes: nat) returns (ok: bool, ghost factory: Block)
      requires Valid() && StateBytes(config, CustomSize()) == Some(bytes) && LoadBufferValid(config, bytes)
      modifies ram, custom
      ensures Valid() && layoutOptions == old(layoutOptions)
      ensures Core(config, ram[..], layoutOptions) == Core(config, old(ram[..]), layoutOptions)
      ensures DefaultCore(config, ram[..]) == DefaultCore(config, old(ram[..]))
      ensures factory == Slice(ram[..], Workspace(bytes))
      ensures FactoryPayload(factory, DefaultCore(config, ram[..]), old(CustomBytes()))
      ensures ok == AcceptsCustom(CustomPart(bytes))
      ensures CustomBytes() == Rewritten(resets, old(CustomBytes())) && (old(Resettable()) ==> ok)
    {
      hide KeymapBytes, EncoderMapBytes, Overlap, RangesOverlap, Separate, Slice, Core, DefaultCore, Fill;
      StageDefaults(bytes);
      factory := Slice(ram[..], Workspace(bytes));
      ok := true;
      if CustomSize() != 0 {
        ok := custom.ValidateState(CustomPart(bytes));
      }
    }

    /** The handler's reset state can be saved and is acceptable. */
    ghost predicate Resettable()
      reads custom
    {
      CustomSize() == 0 || (custom != null && custom.saves && custom.accepts(Rewritten(custom.resets, custom.active)))
    }

    /** The defaults, then what a reset makes of the custom bytes, or zeros if that is not saved. */
    ghost predicate FactoryPayload(p: Block, defaults: Block, before: Block) {
      p == defaults + Rewritten(resets, before) || (!Saves() && p == defaults + Fill(CustomSize(), 0))
    }

    method FinishReset(bytes: nat)
      requires Valid() && StateBytes(config, CustomSize()) == Some(bytes) && LoadBufferValid(config, bytes)
      requires AcceptsCustom(CustomPart(bytes))
      modifies ram, this`layoutOptions, this`dirty, custom, callbacks
      ensures Valid() && !dirty && Live() == Slice(old(ram[..]), Workspace(bytes))
      ensures DefaultCore(config, ram[..]) == DefaultCore(config, old(ram[..]))
      ensures callbacks != null ==> NoticesOf() == old(NoticesOf()) + [LayoutOptionsChanged(layoutOptions), Changed]
    {
      hide KeymapBytes, EncoderMapBytes, Overlap, RangesOverlap, Separate, Slice, Core, DefaultCore;
      var ok := PublishAll(bytes);
      dirty := false;
      Notify(LayoutOptionsChanged(layoutOptions));
      Notify(Changed);
    }

    /** Storage, record size and workspace allow a reset or a load. */
    predicate Able() {
      Persistent() && LoadBufferValid(config, StateBytes(config, CustomSize()).value)
    }

    /** What a reset that was attempted leaves: on success the factory payload live and
        stored byte for byte as a save of it would be, on failure nothing published. */
    twostate predicate ResetDone(factory: Block, ok: bool)
      requires old(Valid()) && Valid()
      reads this, callbacks, Footprint()
    {
      if ok then
        && !dirty && Live() == factory && Persistent()
        && |factory| == StateBytes(config, CustomSize()).value
        && (callbacks != null ==> NoticesOf() == old(NoticesOf()) + [LayoutOptionsChanged(layoutOptions), Changed])
      else
        && dirty == old(dirty) && layoutOptions == old(layoutOptions) && NoticesOf() == old(NoticesOf())
        && Core(config, ram[..], layoutOptions) == Core(config, old(ram[..]), layoutOptions)
    }

    /** A reset with storage and workspace in order: what is stored was validated first,
        and only a stored payload is published. */
    method ResetAble(bytes: nat) returns (ok: bool, ghost factory: Block, ghost how: Durability.Progress)
      requires Valid() && Persistent() && StateBytes(config, CustomSize()) == Some(bytes)
               && LoadBufferValid(config, bytes)
      modifies this`dirty, this`layoutOptions, ram, custom, callbacks
      modifies storage.value.Buffer(), storage.value.Device()
      ensures Valid() && DefaultCore(config, ram[..]) == DefaultCore(config, old(ram[..]))
      ensures FactoryPayload(factory, DefaultCore(config, ram[..]), old(CustomBytes())) && |factory| == bytes
      ensures ResetDone(factory, ok) && (!ok ==> CustomBytes() == Rewritten(resets, old(CustomBytes())))
      ensures how.Erased? == AcceptsCustom(factory[CoreBytes(config)..])
      ensures var st := storage.value;
              match how
              case Rejected => !ok && st.Durable() == old(st.Durable()) && st.Contents() == old(st.Contents())
              case Erased(gone, mid) =>
                && EraseEffect(old(st.Durable()), old(st.Contents()), gone, mid)
                && st.Contents() == Splice(Fill(st.Size(), Blank(mid)), 0, RecordOf(factory))
                && CommitEffect(mid, st.Contents(), st.Durable(), ok)
                && (!st.Refuses() && mid.FilesMedium? ==> (gone.b ==> gone.a) && (mid.on ==> gone.b))
      ensures old(Resettable() && storage.value.Steady(storage.value.ResetCost())) ==> ok
      ensures forall more: nat ::
                old(storage.value.Steady(storage.value.ResetCost() + more)) ==> storage.value.Steady(more)
    {
      hide RecordOf, CommitEffect, EraseEffect, KeymapBytes, EncoderMapBytes, Overlap, RangesOverlap, Separate, Splice,
           Slice, Core, DefaultCore, Fill, FactoryPayload, Mapped;
      ok, factory := StageFactory(bytes);
      how := Durability.Rejected;
      if ok {
        ghost var gone, mid;
        ok, gone, mid := StoreFactory(bytes);
        how := Durability.Erased(gone, mid);
        if ok {
          FinishReset(bytes);
        }
      }
    }

    /** The staged record is that of the live state. */
    ghost predicate StoredLive()
      requires Valid()
      reads this`layoutOptions, Footprint()
    {
      && Persistent() && |Live()| < 0x1_0000
      && STATE_HEADER + |Live()| <= |storage.value.Contents()|
      && storage.value.Contents()[..STATE_HEADER + |Live()|] == RecordOf(Live())
    }

    lemma StoredAfterReset(fill: Block)
      requires Valid() && Persistent() && |Live()| == StateBytes(config, CustomSize()).value
      requires |fill| == storage.value.Size() && storage.value.Contents() == Splice(fill, 0, RecordOf(Live()))
      ensures StoredLive()
    {
      hide RecordOf, KeymapBytes, EncoderMapBytes, Separate, Core;
    }

    /** The next start-up restores the live state. */
    ghost predicate Survives()
      requires Valid() && Persistent()
      reads this`layoutOptions, Footprint()
    {
      Durability.BootState(Setup(), storage.value.Durable()).live == Live()
    }

    /** Storage that outlives the power and does not refuse to remove a file. */
    predicate Lasting() {
      storage.Some? && !storage.value.InRam? && !storage.value.Refuses()
    }

    lemma FactoryIs(core: Block, customState: Block, factory: Block)
      requires Valid() && Persistent() && |core| == CoreBytes(config) && |customState| == CustomSize()
      requires FactoryPayload(factory, DefaultCore(config, ram[..]), customState)
      ensures Durability.IsFactory(Setup(), core + customState, factory)
    {
      hide KeymapBytes, EncoderMapBytes, Core, DefaultCore, Separate, Fill;
      var built, reset := DefaultCore(config, ram[..]), Rewritten(resets, customState);
      assert (core + customState)[|core|..] == customState;
      assert (built + reset)[..|built|] == built && (built + reset)[|built|..] == reset;
      assert (built + Rewritten(resets, powerUp))[..|built|] == built;
      assert (built + Fill(CustomSize(), 0))[..|built|] == built
             && (built + Fill(CustomSize(), 0))[|built|..] == Fill(CustomSize(), 0);
    }

    /** A failed reset leaves the core and what the handler made of its bytes. */
    lemma DisturbedIs(core: Block, customState: Block)
      requires Valid() && Persistent() && |core| == CoreBytes(config) && |customState| == CustomSize()
      ensures Durability.Disturbed(Setup(), core + customState) == core + Rewritten(resets, customState)
      ensures core + Rewritten(resets, customState) == core + customState <==>
              customState == Rewritten(resets, customState)
    {
      hide KeymapBytes, EncoderMapBytes, Core, DefaultCore, Separate;
      var live, reset := core + customState, Rewritten(resets, customState);
      assert live[..|core|] == core && live[|core|..] == customState;
      assert (core + reset)[|core|..] == reset;
    }

    /** Factory reset: the default payload is made durable first and published only then. A
        failed one leaves everything but custom state, which an attempted one has reset; so
        it leaves the live state if and only if it was not attempted, or the handler's reset
        leaves its bytes as they are. */
    method FactoryReset() returns (ok: bool, ghost factory: Block, ghost how: Durability.Progress)
      requires Valid()
      modifies this`dirty, this`layoutOptions, ram, custom, callbacks
      modifies if storage.Some? then {storage.value.Buffer()} + storage.value.Device() else {}
      ensures Valid() && DefaultCore(config, ram[..]) == DefaultCore(config, old(ram[..]))
      ensures !Able() ==> !ok && Live() == old(Live()) && (storage.Some? ==> View() == old(View()))
      ensures Able() ==>
                FactoryPayload(factory, DefaultCore(config, ram[..]), old(CustomBytes())) && ResetDone(factory, ok)
      ensures Able() ==>
                Setup() == old(Setup())
                && Durability.ResetEffect(Setup(), old(View()), factory, how, View(), ok)
      ensures !ok ==>
                (Live() == old(Live()) <==> !Able() || Rewritten(resets, old(CustomBytes())) == old(CustomBytes()))
      ensures (ok && Saves()) || (!ok && Able()) ==> CustomBytes() == Rewritten(resets, old(CustomBytes()))
      ensures !ok ==> Core(config, ram[..], layoutOptions) == Core(config, old(ram[..]), old(layoutOptions))
      ensures old(Able() && Resettable() && storage.value.Steady(storage.value.ResetCost())) ==> ok
      ensures storage.Some? ==>
                forall more: nat ::
                  old(storage.value.Steady(storage.value.ResetCost() + more)) ==> storage.value.Steady(more)
      ensures ok ==> Able() && !dirty && StoredLive() && (Lasting() ==> Survives())
      ensures dirty == if ok then false else old(dirty)
    {
      hide RecordOf, StoredLive, CommitEffect, EraseEffect, KeymapBytes, EncoderMapBytes, Overlap, RangesOverlap,
           Separate, Splice, Slice, Core, DefaultCore, Fill, FactoryPayload, Durability.IsFactory, Durability.Disturbed,
           Durability.BootState, Rewritten;
      factory, how := [], Durability.Rejected;
      var sized := StateBytes(config, CustomSize());
      if storage == None || sized == None {
        return false, factory, how;
      }
      var bytes := sized.value;
      if !LoadBufferValid(config, bytes) || storage.value.Size() < STATE_HEADER + bytes {
        return false, factory, how;
      }
      ghost var core := Core(config, ram[..], layoutOptions);
      ghost var before := CustomBytes();
      ok, factory, how := ResetAble(bytes);
      AcceptsTail(factory);
      FactoryIs(core, before, factory);
      DisturbedIs(core, before);
      if ok {
        StoredAfterReset(Fill(storage.value.Size(), Blank(how.mid)));
        if Saves() {
          LiveTail(DefaultCore(config, ram[..]), before, factory);
        }
        if Lasting() {
          LastingReset(old(View()), factory, how, View());
        }
      }
    }

    lemma LiveTail(core: Block, before: Block, live: Block)
      requires Valid() && |core| == CoreBytes(config) && Live() == live
      requires FactoryPayload(live, core, before) && Saves()
      ensures CustomBytes() == Rewritten(resets, before)
    {
      hide KeymapBytes, EncoderMapBytes, Core, Separate;
      assert live[|core|..] == Rewritten(resets, before) && Live()[|core|..] == CustomBytes();
    }

    lemma LastingReset(before: Durability.System, factory: Block, how: Durability.Progress, after: Durability.System)
      requires Valid() && Persistent() && Lasting() && Durability.Sized(Setup(), before) && !before.medium.NoMedium?
      requires Durability.ResetEffect(Setup(), before, factory, how, after, true)
      requires how.Erased? && how.mid.FilesMedium? ==> (how.mid.on ==> how.gone.b)
      ensures Durability.BootState(Setup(), after.medium).live == after.live
    {
      hide RecordOf, KeymapBytes, EncoderMapBytes, Separate, Core, DefaultCore, Durability.IsFactory,
           Durability.BootState, Durability.LoadFrom;
      Durability.ResetIsDurable(Setup(), before, factory, how.gone, how.mid, after);
    }

    // ----- the live keymap

    method MarkDirty(nowMs: uint32)
      modifies this`dirty, this`saveAt, callbacks
      ensures dirty && saveAt == (nowMs + config.autoSaveMs) % WORD_LIMIT
      ensures callbacks != null ==> NoticesOf() == old(NoticesOf()) + [Changed]
    {
      dirty := true;
      saveAt := (nowMs + config.autoSaveMs) % WORD_LIMIT;
      Notify(Changed);
    }

    method GetKeycode(layer: uint8, row: uint8, column: uint8) returns (code: bv16)
      requires Valid()
      ensures code == KeyAt(config, ram[..], layer, row, column)
    {
      hide KeymapBytes, CellIndex, Cell;
      if !OnBoard(config, layer, row, column) {
        return 0;
      }
      CellInside(config, layer, row, column);
      code := LoadCell(ram, KeyAddress(config, layer, row, column));
    }

    /** Sets one key and no other. */
    method SetKeycode(layer: uint8, row: uint8, column: uint8, value: bv16) returns (ok: bool)
      requires Valid()
      modifies ram
      ensures Valid() && ok == OnBoard(config, layer, row, column)
      ensures forall l: nat, r: nat, c: nat :: OnBoard(config, l, r, c) ==>
                KeyAt(config, ram[..], l, r, c)
                == if l == layer && r == row && c == column then value else KeyAt(config, old(ram[..]), l, r, c)
      ensures forall k :: 0 <= k < ram.Length && !Keymap(config).Has(k) ==> ram[k] == old(ram[k])
      ensures forall k :: 0 <= k < ram.Length && !Region(KeyAddress(config, layer, row, column), 2).Has(k) ==>
                ram[k] == old(ram[k])
      ensures !ok ==> ram[..] == old(ram[..]) && Live() == old(Live())
    {
      hide KeymapBytes, EncoderMapBytes, CellIndex, CellAt, LowByte, HighByte, Separate, Splice;
      if !OnBoard(config, layer, row, column) {
        return false;
      }
      CellInside(config, layer, row, column);
      StoreCell(ram, KeyAddress(config, layer, row, column), value);
      OutsideSplice(old(ram[..]), KeyAddress(config, layer, row, column), [LowByte(value), HighByte(value)]);
      forall l: nat, r: nat, c: nat | OnBoard(config, l, r, c)
        ensures KeyAt(config, ram[..], l, r, c)
                == if l == layer && r == row && c == column then value else KeyAt(config, old(ram[..]), l, r, c)
      {
        CellInside(config, l, r, c);
        CellsInjective(config, layer, row, column, l, r, c);
        StoredCell(old(ram[..]), config.keymap, CellIndex(config, layer, row, column), value,
            CellIndex(config, l, r, c));
      }
      ok := true;
    }

    lemma EditKeepsDefaults(memory: Block, region: Region)
      requires Valid() && |memory| == ram.Length
      requires region == Keymap(config) || region == EncoderMap(config) || region == Macros(config)
      requires forall k :: 0 <= k < ram.Length && !region.Has(k) ==> ram[k] == memory[k]
      ensures DefaultCore(config, ram[..]) == DefaultCore(config, memory)
    {
      hide KeymapBytes, EncoderMapBytes, Overlap, RangesOverlap, DefaultCore;
      DefaultsKept(config, memory, ram[..], region);
    }

    // ----- host commands

    /** What a command that does not save may do: change live state and then be dirty. */
    ghost predicate EditedFrom(memory: Block, live: Block, wasDirty: bool)
      requires Valid() && |memory| == ram.Length
      reads this`layoutOptions, this`dirty, Footprint()
    {
      DefaultCore(config, ram[..]) == DefaultCore(config, memory)
      && (dirty || (Live() == live && dirty == wasDirty))
    }

    predicate PacketFits(packet: array<byte>) {
      packet.Length == PACKET_SIZE && packet != ram && (storage.Some? ==> packet != storage.value.Buffer())
    }

    /** Writes reply bytes into the packet. */
    method Reply(packet: array<byte>, at: nat, data: Block)
      requires packet.Length == PACKET_SIZE && at + |data| <= PACKET_SIZE
      modifies packet
      ensures packet[..] == Splice(old(packet[..]), at, data)
    {
      CopyInto(packet, at, data);
    }

    /** The slice of the flat keymap from `offset` on, zero beyond its end. */
    method ReadDynamicKeymap(offset: nat, size: nat) returns (output: Block)
      requires Valid()
      ensures KeymapBytes(config) % 2 == 0
      ensures output == Excerpt(Flat(ram[..], Keymap(config)), offset, size)
    {
      EvenKeymap(config);
      hide KeymapBytes;
      output := ReadFlat(ram, Keymap(config), offset, size);
    }

    /** Overwrites exactly the in-range part of the flat keymap and is dirty if there is any. */
    method WriteDynamicKeymap(offset: nat, input: Block, nowMs: uint32)
      requires Valid()
      modifies ram, this`dirty, this`saveAt, callbacks
      ensures Valid() && KeymapBytes(config) % 2 == 0
      ensures Flat(ram[..], Keymap(config)) == Overwritten(Flat(old(ram[..]), Keymap(config)), offset, input)
      ensures forall k :: 0 <= k < ram.Length && !Keymap(config).Has(k) ==> ram[k] == old(ram[k])
      ensures if |input| > 0 && offset < KeymapBytes(config)
              then dirty && saveAt == (nowMs + config.autoSaveMs) % WORD_LIMIT
              else dirty == old(dirty) && saveAt == old(saveAt) && ram[..] == old(ram[..])
    {
      EvenKeymap(config);
      hide KeymapBytes, EncoderMapBytes, Separate, Flat, Overwritten;
      var wrote := WriteFlat(ram, Keymap(config), offset, input);
      if wrote {
        MarkDirty(nowMs);
      } else {
        UnchangedOutside(old(ram[..]), Keymap(config), offset, input);
      }
    }

    /** A write that reached no keymap byte left memory as it was. */
    lemma UnchangedOutside(memory: Block, r: Region, offset: nat, input: Block)
      requires |memory| == ram.Length && r.Within(ram.Length) && r.size % 2 == 0
      requires |input| == 0 || offset >= r.size
      requires Flat(ram[..], r) == Overwritten(Flat(memory, r), offset, input)
      requires forall k :: 0 <= k < ram.Length && !r.Has(k) ==> ram[k] == memory[k]
      ensures ram[..] == memory
    {
      forall k | 0 <= k < ram.Length && r.Has(k) ensures ram[k] == memory[k] {
        var i := Twin(k - r.at);
        assert Twin(i) == k - r.at && i < r.size;
        assert Flat(ram[..], r)[i] == Flat(memory, r)[i];
      }
    }

    /** What commands read and write. */
    ghost function Now(): (s: State)
      reads ram, custom, this`layoutOptions, this`dirty
      ensures |s.ram| == ram.Length && s.dirty == dirty
    {
      State(ram[..], layoutOptions, CustomBytes(), dirty)
    }

    /** Commands 0x04 and 0x05: one key. */
    method HandleKey(packet: array<byte>, nowMs: uint32)
      requires Valid() && PacketFits(packet) && packet[0] in {0x04, 0x05}
      modifies packet, ram, this`dirty, this`saveAt, callbacks
      ensures Valid() && EditedFrom(old(ram[..]), old(Live()), old(dirty))
      ensures KeyAnswered(config, old(Now()), old(packet[..]), Now(), packet[..])
      ensures saveAt == if Edits(config, old(packet[..]), packet[..]) then (nowMs + config.autoSaveMs) % WORD_LIMIT
                        else old(saveAt)
    {
      if packet[0] == 0x04 {
        HandleGetKey(packet);
      } else {
        HandleSetKey(packet, nowMs);
      }
    }

    method HandleGetKey(packet: array<byte>)
      requires Valid() && PacketFits(packet) && packet[0] == 0x04
      modifies packet
      ensures Valid() && EditedFrom(old(ram[..]), old(Live()), old(dirty))
      ensures KeyAnswered(config, old(Now()), old(packet[..]), Now(), packet[..])
    {
      hide KeymapBytes, EncoderMapBytes, Overlap, RangesOverlap, Separate, Splice, Flat, LowByte, HighByte, Cell,
           CellIndex, Core, DefaultCore;
      var code := GetKeycode(packet[1] as nat, packet[2] as nat, packet[3] as nat);
      CellOfBytes(code);
      StoredBytes(packet[..], 4, [HighByte(code), LowByte(code)]);
      Reply(packet, 4, [HighByte(code), LowByte(code)]);
      assert packet[..][4] == HighByte(code) && packet[..][5] == LowByte(code);
    }

    /** Sets a key and is dirty, or leaves everything. */
    method StoreKey(layer: uint8, row: uint8, column: uint8, value: bv16, nowMs: uint32) returns (stored: bool)
      requires Valid()
      modifies ram, this`dirty, this`saveAt, callbacks
      ensures Valid() && EditedFrom(old(ram[..]), old(Live()), old(dirty))
      ensures stored == OnBoard(config, layer, row, column)
      ensures !stored ==> Now() == old(Now()) && Live() == old(Live())
      ensures stored ==>
                dirty && OnlyIn(Region(KeyAddress(config, layer, row, column), 2), old(Now()), Now())
                && KeyAt(config, ram[..], layer, row, column) == value
      ensures saveAt == if stored then (nowMs + config.autoSaveMs) % WORD_LIMIT else old(saveAt)
    {
      hide KeymapBytes, EncoderMapBytes, Overlap, RangesOverlap, Separate, CellIndex, Core, DefaultCore, KeyAddress;
      stored := SetKeycode(layer, row, column, value);
      EditKeepsDefaults(old(ram[..]), Keymap(config));
      if stored {
        MarkDirty(nowMs);
      }
    }

    method HandleSetKey(packet: array<byte>, nowMs: uint32)
      requires Valid() && PacketFits(packet) && packet[0] == 0x05
      modifies packet, ram, this`dirty, this`saveAt, callbacks
      ensures Valid() && EditedFrom(old(ram[..]), old(Live()), old(dirty))
      ensures KeyAnswered(config, old(Now()), old(packet[..]), Now(), packet[..])
      ensures saveAt == if Edits(config, old(packet[..]), packet[..]) then (nowMs + config.autoSaveMs) % WORD_LIMIT
                        else old(saveAt)
    {
      hide KeymapBytes, EncoderMapBytes, Overlap, RangesOverlap, Separate, Splice, Flat, LowByte, HighByte, Cell,
           CellIndex, Core, DefaultCore, KeyAnswered, KeyAt, KeyAddress, OnlyIn, EditedFrom;
      ghost var q := packet[..];
      var value := Cell(packet[5], packet[4]);
      var stored := StoreKey(packet[1] as nat, packet[2] as nat, packet[3] as nat, value, nowMs);
      if stored {
        KeyIsStored(config, old(Now()), q, Now(), value);
      } else {
        Refuse(packet);
        Edited(old(ram[..]), old(Live()), old(dirty));
        KeyIsRefused(config, Now(), q, packet[..]);
      }
    }

    /** Commands 0x12 and 0x13: a stretch of the flat keymap. */
    method HandleBulk(packet: array<byte>, nowMs: uint32)
      requires Valid() && PacketFits(packet) && packet[0] in {0x12, 0x13}
      modifies packet, ram, this`dirty, this`saveAt, callbacks
      ensures Valid() && EditedFrom(old(ram[..]), old(Live()), old(dirty))
      ensures BulkAnswered(config, old(Now()), old(packet[..]), Now(), packet[..])
      ensures saveAt == if Edits(config, old(packet[..]), packet[..]) then (nowMs + config.autoSaveMs) % WORD_LIMIT
                        else old(saveAt)
    {
      EvenKeymap(config);
      hide KeymapBytes, EncoderMapBytes, Overlap, RangesOverlap, Separate, Splice, Flat, Overwritten, Excerpt, Core,
           DefaultCore;
      var offset, size := Offset(packet[..]), Amount(packet[..]);
      if packet[0] == 0x12 {
        var output := ReadDynamicKeymap(offset, size);
        Reply(packet, 4, output);
      } else {
        WriteDynamicKeymap(offset, packet[4..4 + size], nowMs);
        EditKeepsDefaults(old(ram[..]), Keymap(config));
      }
    }

    /** Command 0x06: keymap and encoder map back to their defaults. */
    method HandleKeymapReset(nowMs: uint32)
      requires Valid()
      modifies ram, this`dirty, this`saveAt, callbacks
      ensures Valid() && dirty && DefaultCore(config, ram[..]) == DefaultCore(config, old(ram[..]))
      ensures KeymapWasReset(config, old(Now()), Now())
      ensures saveAt == (nowMs + config.autoSaveMs) % WORD_LIMIT
    {
      hide KeymapBytes, EncoderMapBytes, Overlap, RangesOverlap, Splice, Slice, WordBytes, Fill;
      ghost var start := ram[..];
      Memcpy(config.keymap, config.defaultKeymap, KeymapBytes(config));
      ghost var mid, dk := ram[..], Slice(start, DefaultKeymap(config));
      SliceOfSplice(start, config.keymap, dk, Keymap(config));
      CopyKeeps(start, Keymap(config), dk, DefaultKeymap(config));
      CopyKeeps(start, Keymap(config), dk, DefaultEncoderMap(config));
      CopyKeeps(start, Keymap(config), dk, Macros(config));
      Memcpy(config.encoderMap, config.defaultEncoderMap, EncoderMapBytes(config));
      ghost var de := Slice(mid, DefaultEncoderMap(config));
      SliceOfSplice(mid, config.encoderMap, de, EncoderMap(config));
      CopyKeeps(mid, EncoderMap(config), de, Keymap(config));
      CopyKeeps(mid, EncoderMap(config), de, DefaultKeymap(config));
      CopyKeeps(mid, EncoderMap(config), de, DefaultEncoderMap(config));
      CopyKeeps(mid, EncoderMap(config), de, Macros(config));
      MarkDirty(nowMs);
    }

    /** The macro and count commands that only reply. */
    method HandleGetMacros(packet: array<byte>)
      requires Valid() && PacketFits(packet) && packet[0] in {0x0C, 0x0D, 0x0E, 0x11}
      modifies packet
      ensures Valid() && EditedFrom(old(ram[..]), old(Live()), old(dirty))
      ensures MacrosAnswered(config, old(Now()), old(packet[..]), Now(), packet[..])
    {
      hide KeymapBytes, EncoderMapBytes, Overlap, RangesOverlap, Separate, Splice, Excerpt, Slice, Octet, Core,
           DefaultCore;
      var offset, size := Offset(packet[..]), Amount(packet[..]);
      match packet[0]
      case 0x0C => Reply(packet, 1, [Octet(config.macroCount)]);
      case 0x0D => Reply(packet, 1, [Octet(config.macroBytes / 256), Octet(config.macroBytes % 256)]);
      case 0x0E =>
        var output := ReadMacros(offset, size);
        Reply(packet, 4, output);
      case _ => Reply(packet, 1, [Octet(config.layers)]);
    }

    /** Commands 0x0F and 0x10: macros written or zeroed. */
    method HandleSetMacros(packet: array<byte>, nowMs: uint32)
      requires Valid() && PacketFits(packet) && packet[0] in {0x0F, 0x10}
      modifies ram, this`dirty, this`saveAt, callbacks
      ensures Valid() && EditedFrom(old(ram[..]), old(Live()), old(dirty))
      ensures MacrosAnswered(config, old(Now()), packet[..], Now(), packet[..])
      ensures saveAt == if Edits(config, packet[..], packet[..]) then (nowMs + config.autoSaveMs) % WORD_LIMIT
                        else old(saveAt)
    {
      hide KeymapBytes, EncoderMapBytes, Overlap, RangesOverlap, Separate, Splice, Overwritten, Slice, Fill, Core,
           DefaultCore;
      if packet[0] == 0x0F {
        var offset, size := Offset(packet[..]), Amount(packet[..]);
        var wrote := WriteMacros(offset, packet[4..4 + size]);
        if wrote {
          MarkDirty(nowMs);
        }
      } else {
        Memset(config.macros, config.macroBytes);
        OutsideSplice(old(ram[..]), config.macros, Fill(config.macroBytes, 0));
        SliceOfSplice(old(ram[..]), config.macros, Fill(config.macroBytes, 0), Macros(config));
        EditKeepsDefaults(old(ram[..]), Macros(config));
        MarkDirty(nowMs);
      }
    }

    /** Commands 0x0C to 0x11: macros and layer count. */
    method HandleMacros(packet: array<byte>, nowMs: uint32)
      requires Valid() && PacketFits(packet) && packet[0] in MACROS
      modifies packet, ram, this`dirty, this`saveAt, callbacks
      ensures Valid() && EditedFrom(old(ram[..]), old(Live()), old(dirty))
      ensures MacrosAnswered(config, old(Now()), old(packet[..]), Now(), packet[..])
      ensures saveAt == if Edits(config, old(packet[..]), packet[..]) then (nowMs + config.autoSaveMs) % WORD_LIMIT
                        else old(saveAt)
    {
      if packet[0] in {0x0F, 0x10} {
        HandleSetMacros(packet, nowMs);
      } else {
        HandleGetMacros(packet);
      }
    }

    lemma OutsideSplice(s: Block, at: nat, data: Block)
      requires at + |data| <= |s|
      ensures forall k :: 0 <= k < |s| && !(at <= k < at + |data|) ==> Splice(s, at, data)[k] == s[k]
    {
    }

    method ReadMacros(offset: nat, size: nat) returns (output: Block)
      requires Valid()
      ensures output == Excerpt(Slice(ram[..], Macros(config)), offset, size)
    {
      output := [];
      for i := 0 to size
        invariant |output| == i
        invariant forall k :: 0 <= k < i ==>
                    output[k] == if offset + k < config.macroBytes then ram[config.macros + offset + k] else 0
      {
        var index := offset + i;
        output := output + [if index < config.macroBytes then ram[config.macros + index] else 0];
      }
    }

    method WriteMacros(offset: nat, input: Block) returns (wrote: bool)
      requires Valid()
      modifies ram
      ensures Valid() && DefaultCore(config, ram[..]) == DefaultCore(config, old(ram[..]))
      ensures Slice(ram[..], Macros(config)) == Overwritten(Slice(old(ram[..]), Macros(config)), offset, input)
      ensures forall k :: 0 <= k < ram.Length && !Macros(config).Has(k) ==> ram[k] == old(ram[k])
      ensures wrote <==> |input| > 0 && offset < config.macroBytes
      ensures !wrote ==> ram[..] == old(ram[..])
    {
      hide KeymapBytes, EncoderMapBytes, Overlap, RangesOverlap, Separate, DefaultCore;
      wrote := false;
      for i := 0 to |input|
        invariant forall k :: 0 <= k < ram.Length ==>
                    ram[k] == if config.macros + offset <= k < config.macros + offset + i
                        && k < config.macros + config.macroBytes
                              then input[k - config.macros - offset] else old(ram[k])
        invariant wrote <==> i > 0 && offset < config.macroBytes
      {
        if offset + i < config.macroBytes {
          ram[config.macros + offset + i] := input[i];
          wrote := true;
        }
      }
      assert Slice(ram[..], Macros(config)) == Overwritten(Slice(old(ram[..]), Macros(config)), offset, input);
      assert !wrote ==> ram[..] == old(ram[..]);
      EditKeepsDefaults(old(ram[..]), Macros(config));
    }

    method HandleGetEncoder(packet: array<byte>)
      requires Valid() && PacketFits(packet) && packet[0] == 0x14
      requires HasEncoder(config, packet[1] as nat, packet[2] as nat, packet[3] as nat)
      modifies packet
      ensures Valid() && EditedFrom(old(ram[..]), old(Live()), old(dirty))
      ensures EncoderAnswered(config, old(Now()), old(packet[..]), Now(), packet[..])
    {
      hide KeymapBytes, EncoderMapBytes, Overlap, RangesOverlap, Separate, Splice, LowByte, HighByte, Cell,
           EncoderAddress, Core, DefaultCore;
      var l, e, d := packet[1] as nat, packet[2] as nat, packet[3] as nat;
      EncoderInside(config, l, e, d);
      var code := LoadCell(ram, EncoderAddress(config, l, e, d));
      CellOfBytes(code);
      StoredBytes(packet[..], 4, [HighByte(code), LowByte(code)]);
      Reply(packet, 4, [HighByte(code), LowByte(code)]);
      assert packet[..][4] == HighByte(code) && packet[..][5] == LowByte(code);
    }

    method HandleSetEncoder(packet: array<byte>, nowMs: uint32)
      requires Valid() && PacketFits(packet) && packet[0] == 0x15
      requires HasEncoder(config, packet[1] as nat, packet[2] as nat, packet[3] as nat)
      modifies ram, this`dirty, this`saveAt, callbacks
      ensures Valid() && EditedFrom(old(ram[..]), old(Live()), old(dirty))
      ensures EncoderAnswered(config, old(Now()), packet[..], Now(), packet[..])
      ensures saveAt == (nowMs + config.autoSaveMs) % WORD_LIMIT
    {
      hide KeymapBytes, EncoderMapBytes, Overlap, RangesOverlap, Separate, Splice, LowByte, HighByte, Cell,
           EncoderAddress, Core, DefaultCore;
      var l, e, d := packet[1] as nat, packet[2] as nat, packet[3] as nat;
      EncoderInside(config, l, e, d);
      var code := Cell(packet[5], packet[4]);
      StoreCell(ram, EncoderAddress(config, l, e, d), code);
      CellOfBytes(code);
      StoredBytes(old(ram[..]), EncoderAddress(config, l, e, d), [LowByte(code), HighByte(code)]);
      EditKeepsDefaults(old(ram[..]), EncoderMap(config));
      MarkDirty(nowMs);
    }

    /** Commands 0x14 and 0x15. */
    method HandleEncoder(packet: array<byte>, nowMs: uint32)
      requires Valid() && PacketFits(packet) && packet[0] in {0x14, 0x15}
      modifies packet, ram, this`dirty, this`saveAt, callbacks
      ensures Valid() && EditedFrom(old(ram[..]), old(Live()), old(dirty))
      ensures EncoderAnswered(config, old(Now()), old(packet[..]), Now(), packet[..])
      ensures saveAt == if Edits(config, old(packet[..]), packet[..]) then (nowMs + config.autoSaveMs) % WORD_LIMIT
                        else old(saveAt)
    {
      hide KeymapBytes, EncoderMapBytes, Separate, Live, EditedFrom, EncoderAddress, OnlyIn, Cell, CellAt, Core,
           DefaultCore;
      if !HasEncoder(config, packet[1] as nat, packet[2] as nat, packet[3] as nat) {
        Refuse(packet);
        Edited(old(ram[..]), old(Live()), old(dirty));
      } else if packet[0] == 0x14 {
        HandleGetEncoder(packet);
      } else {
        HandleSetEncoder(packet, nowMs);
      }
    }

    /** A reply in bytes 2 to 5. */
    method ReplyFour(packet: array<byte>, b2: byte, b3: byte, b4: byte, b5: byte)
      requires packet.Length == PACKET_SIZE
      modifies packet
      ensures FourReplied(old(packet[..]), packet[..])
      ensures packet[2] == b2 && packet[3] == b3 && packet[4] == b4 && packet[5] == b5
    {
      packet[2], packet[3], packet[4], packet[5] := b2, b3, b4, b5;
    }

    /** Commands 0x01 and 0x02 only reply. */
    method HandleGetValue(packet: array<byte>, nowMs: uint32)
      requires Valid() && PacketFits(packet) && packet[0] in {0x01, 0x02}
      modifies packet
      ensures old(packet[0]) == 0x02 ==> OptionsAnswered(config, old(Now()), old(packet[..]), Now(), packet[..])
      ensures old(packet[0]) == 0x01 ==> packet[..] == old(packet[..])[1 := 0][2 := VERSION]
      ensures UptimeAnswered(old(packet[..]), packet[..], nowMs)
    {
      hide KeymapBytes, EncoderMapBytes, Valid, Word, WordBytes, NumberBytes, NumberAt;
      if packet[0] == 0x01 {
        packet[1], packet[2] := 0, VERSION;
        return;
      }
      match packet[1]
      case 0x01 =>
        var value := NumberBytes(nowMs);
        NumberIs(value, 0);
        ReplyFour(packet, value[3], value[2], value[1], value[0]);
      case 0x02 =>
        var value := WordBytes(layoutOptions);
        ReplyFour(packet, value[3], value[2], value[1], value[0]);
      case 0x03 =>
        // The rows come from the application; their bytes are left open here.
        var rows: Block := *;
        if (config.columns + 7) / 8 == 0 || (config.columns + 7) / 8 > 4 {
          packet[0] := 0xFF;
        } else if |rows| == 29 {
          Reply(packet, 3, rows);
        }
      case 0x04 =>
        var value := WordBytes(config.firmwareVersion);
        ReplyFour(packet, value[3], value[2], value[1], value[0]);
      case 0x06 => ReplyFour(packet, 0, 0, 0, 8);
      case _ => packet[0] := 0xFF;
    }

    /** Command 0x03. */
    method HandleSetValue(packet: array<byte>, nowMs: uint32)
      requires Valid() && PacketFits(packet) && packet[0] == 0x03
      modifies packet, this`layoutOptions, this`dirty, this`saveAt, callbacks
      ensures Valid() && EditedFrom(old(ram[..]), old(Live()), old(dirty))
      ensures OptionsAnswered(config, old(Now()), old(packet[..]), Now(), packet[..])
      ensures callbacks != null ==>
                NoticesOf() == old(NoticesOf()) + if old(packet[1]) == 0x05 then [DeviceIndication(old(packet[2]))]
                                                  else if old(packet[1]) == 0x02
                                                        then [Changed, LayoutOptionsChanged(layoutOptions)]
                                                  else []
      ensures saveAt == if Edits(config, old(packet[..]), packet[..]) then (nowMs + config.autoSaveMs) % WORD_LIMIT
                        else old(saveAt)
    {
      hide KeymapBytes, EncoderMapBytes, Separate, Overlap, RangesOverlap, Word, WordBytes, Core, DefaultCore, Slice;
      if packet[1] == 0x05 {
        Notify(DeviceIndication(packet[2]));
      } else if packet[1] == 0x02 {
        layoutOptions := Word(packet[5], packet[4], packet[3], packet[2]);
        MarkDirty(nowMs);
        Notify(LayoutOptionsChanged(layoutOptions));
      } else {
        Reply(packet, 0, [0xFF]);
      }
    }

    /** Commands 0x07 and 0x08. */
    method HandleCustom(packet: array<byte>, nowMs: uint32)
      requires Valid() && PacketFits(packet) && packet[0] in {0x07, 0x08}
      modifies packet, custom, this`dirty, this`saveAt, callbacks
      ensures Valid() && EditedFrom(old(ram[..]), old(Live()), old(dirty))
      ensures old(packet[0]) == 0x07 ==> CustomAnswered(old(Now()), old(packet[..]), Now(), packet[..])
      ensures old(packet[0]) == 0x08 ==> Now() == old(Now()) && packet[0] in {old(packet[0]), 0xFF}
      ensures custom == null ==> packet[0] == 0xFF
      ensures saveAt == if Edits(config, old(packet[..]), packet[..]) then (nowMs + config.autoSaveMs) % WORD_LIMIT
                        else old(saveAt)
    {
      hide KeymapBytes, EncoderMapBytes, Separate, Overlap, RangesOverlap, WordBytes, Core, DefaultCore, Slice;
      if custom == null {
        Reply(packet, 0, [0xFF]);
      } else if packet[0] == 0x08 {
        var got := custom.Get(packet);
        if !got {
          Reply(packet, 0, [0xFF]);
        }
      } else {
        var changed := custom.Set(packet);
        if changed {
          MarkDirty(nowMs);
        } else {
          Reply(packet, 0, [0xFF]);
        }
      }
    }

    /** `save`: nothing without storage. */
    method Save() returns (ok: bool)
      requires Valid()
      modifies this`dirty
      modifies if storage.Some? then {storage.value.Buffer()} + storage.value.Device() else {}
      ensures Valid() && dirty == (if ok then false else old(dirty)) && Live() == old(Live())
      ensures Now() == old(Now()).(dirty := dirty) && DefaultCore(config, ram[..]) == DefaultCore(config, old(ram[..]))
      ensures !Persistent() ==> !ok && (storage.Some? ==> View() == old(View()))
      ensures Persistent() ==>
                && Setup() == old(Setup()) && Durability.SaveEffect(Setup(), old(View()), View(), ok)
                && Durability.Effect(Setup(), old(View()), View())
      ensures old(Savable()) ==> ok
      ensures Spends(WorstCost())
    {
      hide KeymapBytes, EncoderMapBytes, Separate, Overlap, RangesOverlap, Core, DefaultCore, Mapped,
           Durability.SaveEffect, Durability.ResetEffect;
      if storage == None {
        return false;
      }
      ok := WriteState();
    }

    /** A save now would succeed: the handler saves and nothing goes wrong. */
    ghost predicate Savable()
      reads if storage.Some? then storage.value.Device() else {}
    {
      Persistent() && Saves() && storage.value.Steady(storage.value.SaveCost())
    }

    /** A factory reset now would succeed. */
    ghost predicate Restorable()
      reads custom
      reads if storage.Some? then storage.value.Device() else {}
    {
      Able() && Resettable() && storage.value.Steady(storage.value.ResetCost())
    }

    /** What makes a request to save, reset or jump succeed. */
    ghost predicate Succeeds(q: Packet)
      reads this`dirty, custom
      reads if storage.Some? then storage.value.Device() else {}
    {
      match q[0]
      case 0x09 => custom != null && custom.agrees(q) && Savable()
      case 0x0A => config.eepromResetEnabled && Restorable()
      case 0x0B => config.bootloaderEnabled && callbacks != null && (dirty ==> Savable())
      case _ => false
    }

    /** What makes it refused before anything is done. */
    ghost predicate Refused(q: Packet)
      reads this`dirty
    {
      match q[0]
      case 0x09 => custom == null || !custom.agrees(q) || !Persistent()
      case 0x0A => !config.eepromResetEnabled || !Able()
      case 0x0B => !config.bootloaderEnabled || callbacks == null || (dirty && !Persistent())
      case _ => false
    }

    /** Storage that is steady for more than `cost` stays so for the rest. */
    twostate predicate Spends(cost: nat)
      reads if storage.Some? then storage.value.Device() else {}
    {
      storage.Some? ==> forall more: nat :: old(storage.value.Steady(cost + more)) ==> storage.value.Steady(more)
    }

    /** The most a command can cost. */
    function WorstCost(): nat {
      if storage.Some? then storage.value.ResetCost() else 0
    }

    lemma SaveIsCheap()
      requires storage.Some?
      ensures storage.value.SaveCost() <= WorstCost()
    {
    }

    /** Command 0x09: the handler agrees and the save succeeds. */
    method HandleSave(packet: array<byte>) returns (ok: bool)
      requires Valid() && PacketFits(packet) && packet[0] == 0x09
      modifies this`dirty
      modifies if storage.Some? then {storage.value.Buffer()} + storage.value.Device() else {}
      ensures Valid() && DefaultCore(config, ram[..]) == DefaultCore(config, old(ram[..]))
      ensures Persistent() ==> Setup() == old(Setup()) && Durability.Effect(Setup(), old(View()), View())
      ensures ok ==> !dirty && Persistent() && Durability.SaveEffect(Setup(), old(View()), View(), true)
      ensures Now() == old(Now()).(dirty := dirty) && Live() == old(Live())
      ensures dirty == (if ok then false else old(dirty))
      ensures old(Succeeds(packet[..])) ==> ok
      ensures old(Refused(packet[..])) ==> !ok && (storage.Some? ==> View() == old(View()))
      ensures Spends(WorstCost())
    {
      hide KeymapBytes, EncoderMapBytes, Separate, Overlap, RangesOverlap, Core, DefaultCore, Mapped,
           Durability.SaveEffect, Durability.ResetEffect;
      ok := false;
      if custom != null {
        ok := custom.Save(packet);
        if ok {
          ok := Save();
        }
      }
    }

    /** Command 0x0A: a factory reset, when enabled. */
    method HandleReset() returns (ok: bool)
      requires Valid()
      modifies this`dirty, this`layoutOptions, ram, custom, callbacks
      modifies if storage.Some? then {storage.value.Buffer()} + storage.value.Device() else {}
      ensures Valid() && DefaultCore(config, ram[..]) == DefaultCore(config, old(ram[..]))
      ensures Persistent() ==> Setup() == old(Setup()) && Durability.Effect(Setup(), old(View()), View())
      ensures ok ==> !dirty && Persistent() && StoredLive() && (Lasting() ==> Survives())
      ensures ok ==> exists factory, how :: Durability.ResetEffect(Setup(), old(View()), factory, how, View(), true)
      ensures dirty == (if ok then false else old(dirty))
      ensures config.eepromResetEnabled && old(Restorable()) ==> ok
      ensures !config.eepromResetEnabled || !Able() ==>
                !ok && Live() == old(Live()) && (storage.Some? ==> View() == old(View()))
      ensures Spends(WorstCost())
    {
      hide KeymapBytes, EncoderMapBytes, Separate, Overlap, RangesOverlap, Core, DefaultCore, StoredLive, Survives,
           Lasting, FactoryPayload, Mapped, Durability.SaveEffect, Durability.ResetEffect;
      ok := false;
      if config.eepromResetEnabled {
        ghost var factory, how;
        ok, factory, how := FactoryReset();
      }
    }

    /** Command 0x0B: accepted only with state saved. */
    method HandleBootloader() returns (ok: bool)
      requires Valid()
      modifies this`dirty
      modifies if storage.Some? then {storage.value.Buffer()} + storage.value.Device() else {}
      ensures Valid() && DefaultCore(config, ram[..]) == DefaultCore(config, old(ram[..]))
      ensures Persistent() ==> Setup() == old(Setup()) && Durability.Effect(Setup(), old(View()), View())
      ensures ok ==> !dirty && callbacks != null && config.bootloaderEnabled
      ensures Now() == old(Now()).(dirty := dirty) && Live() == old(Live())
      ensures (dirty == old(dirty) || (ok && !dirty))
      ensures config.bootloaderEnabled && callbacks != null && old(dirty ==> Savable()) ==> ok
      ensures !config.bootloaderEnabled || callbacks == null || (old(dirty) && !Persistent()) ==>
                !ok && (storage.Some? ==> View() == old(View()))
      ensures Spends(WorstCost())
    {
      hide KeymapBytes, EncoderMapBytes, Separate, Overlap, RangesOverlap, Core, DefaultCore, Durability.SaveEffect,
           Durability.ResetEffect;
      ok := config.bootloaderEnabled && callbacks != null;
      if ok && dirty {
        ok := Save();
      }
    }

    /** Replies do not touch state or storage. */
    twostate lemma RepliesOnly(packet: array<byte>)
      requires old(Valid()) && PacketFits(packet)
      requires dirty == old(dirty) && layoutOptions == old(layoutOptions)
      requires unchanged(Footprint() - {packet})
      ensures Valid() && DefaultCore(config, ram[..]) == DefaultCore(config, old(ram[..]))
      ensures Live() == old(Live()) && dirty == old(dirty) && Now() == old(Now())
      ensures storage.Some? ==> View() == old(View())
      ensures Persistent() ==> Setup() == old(Setup()) && Survives() == old(Survives())
      ensures StoredLive() == old(StoredLive())
    {
      hide KeymapBytes, EncoderMapBytes, Separate, Overlap, RangesOverlap, Core, DefaultCore, RecordOf,
           Durability.BootState;
      assert ram[..] == old(ram[..]);
    }

    /** Refuses a request; nothing but the reply changes. */
    method Refuse(packet: array<byte>)
      requires Valid() && PacketFits(packet)
      modifies packet
      ensures Valid() && Now() == old(Now()) && Live() == old(Live())
      ensures DefaultCore(config, ram[..]) == DefaultCore(config, old(ram[..]))
      ensures storage.Some? ==> View() == old(View())
      ensures Persistent() ==> Setup() == old(Setup())
      ensures packet[..] == old(packet[..])[0 := 0xFF]
    {
      hide KeymapBytes, EncoderMapBytes, Separate, Overlap, RangesOverlap, Core, DefaultCore, Mapped;
      packet[0] := 0xFF;
      RepliesOnly(packet);
    }

    /** Commands on keymap, macros and encoders. */
    method ProcessMaps(packet: array<byte>, nowMs: uint32)
      requires Valid() && PacketFits(packet) && packet[0] in {0x04, 0x05, 0x06} + MACROS + {0x12, 0x13, 0x14, 0x15}
      modifies packet, ram, this`dirty, this`saveAt, callbacks
      ensures Valid() && EditedFrom(old(ram[..]), old(Live()), old(dirty))
      ensures Answered(config, old(Now()), old(packet[..]), Now(), packet[..])
      ensures saveAt == if Edits(config, old(packet[..]), packet[..]) then (nowMs + config.autoSaveMs) % WORD_LIMIT
                        else old(saveAt)
    {
      hide KeymapBytes, EncoderMapBytes, Separate, Overlap, RangesOverlap, Core, DefaultCore, KeyAnswered, BulkAnswered,
           KeymapWasReset, MacrosAnswered, EncoderAnswered, EditedFrom, Live, Valid;
      if packet[0] in {0x04, 0x05} {
        HandleKey(packet, nowMs);
      } else if packet[0] in {0x12, 0x13} {
        HandleBulk(packet, nowMs);
      } else if packet[0] == 0x06 {
        HandleKeymapReset(nowMs);
        Edited(old(ram[..]), old(Live()), old(dirty));
      } else if packet[0] in MACROS {
        HandleMacros(packet, nowMs);
      } else {
        HandleEncoder(packet, nowMs);
      }
    }

    lemma Edited(memory: Block, live: Block, wasDirty: bool)
      requires Valid() && |memory| == ram.Length && DefaultCore(config, ram[..]) == DefaultCore(config, memory)
      requires dirty || (Live() == live && dirty == wasDirty)
      ensures EditedFrom(memory, live, wasDirty)
    {
      hide KeymapBytes, EncoderMapBytes, Separate, Core, DefaultCore;
    }

    /** Commands that never touch storage. */
    method ProcessEdit(packet: array<byte>, nowMs: uint32)
      requires Valid() && PacketFits(packet) && packet[0] !in {0x09, 0x0A, 0x0B}
      modifies packet, ram, custom, this`layoutOptions, this`dirty, this`saveAt, callbacks
      ensures Valid() && EditedFrom(old(ram[..]), old(Live()), old(dirty))
      ensures Answered(config, old(Now()), old(packet[..]), Now(), packet[..])
      ensures saveAt == if Edits(config, old(packet[..]), packet[..]) then (nowMs + config.autoSaveMs) % WORD_LIMIT
                        else old(saveAt)
      ensures UptimeAnswered(old(packet[..]), packet[..], nowMs)
    {
      hide KeymapBytes, EncoderMapBytes, Separate, Overlap, RangesOverlap, Core, DefaultCore, Word, KeyAnswered,
           BulkAnswered, KeymapWasReset, MacrosAnswered, EncoderAnswered, OptionsAnswered, CustomAnswered, EditedFrom,
           Live, Valid;
      if packet[0] in {0x01, 0x02} {
        HandleGetValue(packet, nowMs);
        RepliesOnly(packet);
        Edited(old(ram[..]), old(Live()), old(dirty));
      } else if packet[0] == 0x03 {
        HandleSetValue(packet, nowMs);
      } else if packet[0] in {0x07, 0x08} {
        HandleCustom(packet, nowMs);
      } else if Known(packet[0]) {
        ProcessMaps(packet, nowMs);
      } else {
        Refuse(packet);
        Edited(old(ram[..]), old(Live()), old(dirty));
      }
    }

    /** The commands that touch storage. A success reply means what it says: the live
        state is durable. */
    method ProcessStored(packet: array<byte>) returns (ok: bool)
      requires Valid() && PacketFits(packet) && packet[0] in {0x09, 0x0A, 0x0B}
      modifies ram, custom, this`layoutOptions, this`dirty, callbacks
      modifies if storage.Some? then {storage.value.Buffer()} + storage.value.Device() else {}
      ensures Valid() && packet[..] == old(packet[..])
      ensures DefaultCore(config, ram[..]) == DefaultCore(config, old(ram[..]))
      ensures Persistent() ==> Setup() == old(Setup()) && Durability.Effect(Setup(), old(View()), View())
      ensures packet[0] in {0x09, 0x0A} && ok ==> !dirty && Persistent()
      ensures packet[0] == 0x09 && ok ==> Durability.SaveEffect(Setup(), old(View()), View(), true)
      ensures packet[0] == 0x0A && ok ==> StoredLive() && (Lasting() ==> Survives())
      ensures packet[0] == 0x0A && ok ==>
                exists factory, how :: Durability.ResetEffect(Setup(), old(View()), factory, how, View(), true)
      ensures packet[0] == 0x0B && ok ==> !dirty && callbacks != null && config.bootloaderEnabled
      ensures StoredAnswered(old(Now()), packet[..], Now(), if ok then packet[..] else packet[..][0 := 0xFF])
      ensures old(Succeeds(packet[..])) ==> ok
      ensures old(Refused(packet[..])) ==> !ok && Live() == old(Live()) && (storage.Some? ==> View() == old(View()))
      ensures Spends(WorstCost())
    {
      hide KeymapBytes, EncoderMapBytes, Separate, Overlap, RangesOverlap, Core, DefaultCore, Survives, Lasting,
           Durability.Effect, Durability.SaveEffect, Durability.ResetEffect, Live, Mapped, Savable, Spends, WorstCost,
           Able, Resettable, Persistent, Valid, View, Setup, StoredLive, Restorable, Now;
      if packet[0] == 0x09 {
        ok := HandleSave(packet);
      } else if packet[0] == 0x0A {
        ok := HandleReset();
      } else {
        ok := HandleBootloader();
      }
    }

    /** What one command did: the reply `a` answers the request `q`, the step is one of the
        durability runs, a success reply is honest, success and refusal come when they should,
        and defaults stay. */
    twostate predicate Commanded(q: Packet, a: Packet, nowMs: uint32)
      requires old(Valid()) && Valid()
      reads this`layoutOptions, this`dirty, this`saveAt, Footprint()
    {
      && Answered(config, old(Now()), q, Now(), a) && UptimeAnswered(q, a, nowMs)
      && saveAt == (if Edits(config, q, a) then (nowMs + config.autoSaveMs) % WORD_LIMIT else old(saveAt))
      && DefaultCore(config, ram[..]) == DefaultCore(config, old(ram[..]))
      && (Persistent() ==> Setup() == old(Setup()) && Durability.Effect(Setup(), old(View()), View()))
      && (Persistent() ==> Honest(Setup(), old(View()), q, View(), a))
      && (q[0] in {0x09, 0x0A} && a[0] != 0xFF ==> Persistent())
      && (q[0] == 0x0A && a[0] != 0xFF ==> StoredLive() && (Lasting() ==> Survives()))
      && (q[0] == 0x0B && a[0] != 0xFF ==> !dirty && callbacks != null && config.bootloaderEnabled)
      && (old(Succeeds(q)) ==> a[0] != 0xFF)
      && (old(Refused(q)) ==> a[0] == 0xFF && Live() == old(Live()) && (storage.Some? ==> View() == old(View())))
      && Spends(WorstCost())
    }

    /** A command that touches no storage: an edit is a step of the durability runs. */
    method ProcessEditing(packet: array<byte>, nowMs: uint32)
      requires Valid() && PacketFits(packet) && packet[0] !in {0x09, 0x0A, 0x0B}
      modifies packet, ram, custom, this`layoutOptions, this`dirty, this`saveAt, callbacks
      ensures Valid() && Commanded(old(packet[..]), packet[..], nowMs)
    {
      hide KeymapBytes, EncoderMapBytes, Separate, Overlap, RangesOverlap, Core, DefaultCore, Mapped, Answered,
           Durability.SaveEffect, Durability.ResetEffect;
      ProcessEdit(packet, nowMs);
      assert storage.Some? ==> Durability.EditEffect(old(View()), View());
    }

    lemma NoEdit(q: Packet)
      requires q[0] in {0x09, 0x0A, 0x0B}
      ensures forall a: Packet :: !Edits(config, q, a)
    {
    }

    /** A command that touches storage, with its reply. */
    method ProcessSaving(packet: array<byte>, nowMs: uint32) returns (ok: bool)
      requires Valid() && PacketFits(packet) && packet[0] in {0x09, 0x0A, 0x0B}
      modifies packet, ram, custom, this`layoutOptions, this`dirty, callbacks
      modifies if storage.Some? then {storage.value.Buffer()} + storage.value.Device() else {}
      ensures Valid() && ok == (packet[0] != 0xFF) && Commanded(old(packet[..]), packet[..], nowMs)
    {
      hide KeymapBytes, EncoderMapBytes, Separate, Overlap, RangesOverlap, Core, DefaultCore, KeyAnswered, BulkAnswered,
           KeymapWasReset, MacrosAnswered, EncoderAnswered, OptionsAnswered, StoredLive, Survives, Lasting, Mapped,
           Durability.SaveEffect, Durability.ResetEffect, Durability.Effect, Live, Able, Resettable, Savable, Spends,
           WorstCost, Succeeds, Refused, Valid, Edits, View, Setup, Now;
      NoEdit(packet[..]);
      ok := ProcessStored(packet);
      if !ok {
        Refuse(packet);
      }
    }

    /** One host command. Whatever it is, the step it makes is an edit that leaves the
        state dirty, a save or a reset; the reply answers it, and a success reply is honest. */
    method Process(packet: array<byte>, nowMs: uint32) returns (ok: bool)
      requires Valid() && PacketFits(packet)
      modifies packet, ram, custom, this`layoutOptions, this`dirty, this`saveAt, callbacks
      modifies if storage.Some? then {storage.value.Buffer()} + storage.value.Device() else {}
      ensures Valid() && ok == (packet[0] != 0xFF) && Commanded(old(packet[..]), packet[..], nowMs)
    {
      hide KeymapBytes, EncoderMapBytes, Separate, Overlap, RangesOverlap, Core, DefaultCore, Live, Answered, Commanded,
           Mapped;
      if packet[0] in {0x09, 0x0A, 0x0B} {
        ok := ProcessSaving(packet, nowMs);
      } else {
        ProcessEditing(packet, nowMs);
        ok := packet[0] != 0xFF;
      }
    }

    // ----- the response pipeline

    /** Nothing has been received yet. */
    ghost predicate Idle()
      reads this, transport
      reads if callbacks == null then {} else {callbacks.bootloader}
    {
      && !responsePending && !bootloaderPending && replies == []
      && transport.received == [] && transport.sent == [] && transport.attempts == [] && Jumps() == 0
    }

    lemma IdleIsInv()
      requires Idle()
      ensures PipelineInv()
    {
    }

    /** How often the application was told to jump since construction. */
    ghost function Jumps(): int
      reads if callbacks == null then {} else {callbacks.bootloader}
    {
      if callbacks == null then 0 else callbacks.bootloader.jumps - jumpsBefore
    }

    /** Some state made `a` the answer to `q`. */
    ghost predicate Answers(q: Packet, a: Packet) {
      exists s: State, t: State ::
        Mapped(config, |s.ram|) && |t.ram| == |s.ram| && Answered(config, s, q, t, a)
    }

    lemma IsAnswer(s: State, q: Packet, t: State, a: Packet)
      requires Valid() && |s.ram| == |t.ram| == ram.Length && Answered(config, s, q, t, a)
      ensures Answers(q, a)
    {
      hide Answered, Mapped, Separate;
    }

    /** The history of a run of tasks: one reply per received packet, which answers it; every
        attempt to send carries the reply that is due; replies are accepted in order; every
        accepted bootloader request was followed by one jump, except one that is still due. */
    ghost predicate PipelineInv()
      reads this, transport, pendingResponse
      reads if callbacks == null then {} else {callbacks.bootloader}
    {
      && |replies| == |transport.received|
      && (forall k :: 0 <= k < |replies| ==> Answers(transport.received[k], replies[k]))
      && transport.sent == (if responsePending && |replies| > 0 then replies[..|replies| - 1] else replies)
      && (responsePending ==> |replies| > 0 && pendingResponse[..] == replies[|replies| - 1])
      && (forall a :: a in transport.attempts ==> a.0 < |replies| && a.1 == replies[a.0])
      && AcceptedJumps(transport.received, replies, config.bootloaderEnabled)
         == Jumps() + (if bootloaderPending then 1 else 0)
      && (bootloaderPending ==>
            !dirty && callbacks != null && config.bootloaderEnabled
            && |replies| > 0 && transport.received[|replies| - 1][0] == 0x0B && replies[|replies| - 1][0] != 0xFF)
    }

    /** A packet has just been received and nothing is outstanding. */
    ghost predicate Arrived()
      reads this, transport, pendingResponse
      reads if callbacks == null then {} else {callbacks.bootloader}
    {
      && !responsePending && !bootloaderPending
      && |transport.received| == |replies| + 1 && transport.sent == replies
      && (forall k :: 0 <= k < |replies| ==> Answers(transport.received[k], replies[k]))
      && pendingResponse.Length == PACKET_SIZE && transport.received[|replies|] == pendingResponse[..]
      && (forall a :: a in transport.attempts ==> a.0 < |replies| && a.1 == replies[a.0])
      && AcceptedJumps(transport.received, replies, config.bootloaderEnabled) == Jumps()
    }

    lemma PendingFits()
      requires Valid()
      ensures PacketFits(pendingResponse)
    {
    }

    /** Over a Bluetooth mailbox, the replies answer packets that were written under its mutex,
        in the order of their writes and each once, and the host got a prefix of the replies. */
    lemma RepliesAnswerWrites() returns (from: seq<nat>)
      requires PipelineInv() && transport.Linked() && transport.slot != null
      ensures |from| == |replies| == |transport.received|
      ensures forall k :: 0 <= k < |from| ==>
                && Mailbox.Wrote(transport.events, from[k], transport.received[k])
                && Answers(transport.received[k], replies[k])
      ensures forall k, m :: 0 <= k < m < |from| ==> from[k] < from[m]
      ensures transport.sent <= replies
    {
      hide Answers, Mailbox.Wrote, Mailbox.Run;
      from := transport.ReceivedWrites();
    }

    /** Processes the received packet in place: its reply is due next. */
    method Answer(nowMs: uint32)
      requires Valid() && Arrived()
      modifies this, ram, custom, callbacks, pendingResponse
      modifies if storage.Some? then {storage.value.Buffer()} + storage.value.Device() else {}
      ensures Valid() && PipelineInv()
      ensures replies == old(replies) + [pendingResponse[..]]
      ensures Commanded(old(pendingResponse[..]), pendingResponse[..], nowMs)
    {
      hide KeymapBytes, EncoderMapBytes, Separate, Overlap, RangesOverlap, Core, DefaultCore, PipelineInv, Answered,
           Honest, View, Setup, Live, Now, Persistent, Answers, Durability.Effect, Succeeds, Refused, StoredLive,
           Survives, Lasting, Valid, Spends, WorstCost;
      ghost var s, q := Now(), pendingResponse[..];
      PendingFits();
      var bootloaderRequest := pendingResponse[0] == 0x0B && config.bootloaderEnabled;
      var processed := Process(pendingResponse, nowMs);
      IsAnswer(s, q, Now(), pendingResponse[..]);
      label answered:
      NoteReply(bootloaderRequest && processed);
      RepliesOnly@answered(pendingResponse);
    }

    /** The reply is due, and perhaps a jump after it. */
    method NoteReply(jumpLater: bool)
      requires !responsePending && !bootloaderPending && pendingResponse.Length == PACKET_SIZE
      requires |transport.received| == |replies| + 1 && transport.sent == replies
      requires forall k :: 0 <= k < |replies| ==> Answers(transport.received[k], replies[k])
      requires Answers(transport.received[|replies|], pendingResponse[..])
      requires forall a :: a in transport.attempts ==> a.0 < |replies| && a.1 == replies[a.0]
      requires AcceptedJumps(transport.received, replies, config.bootloaderEnabled) == Jumps()
      requires jumpLater == JumpAccepted(transport.received[|replies|], pendingResponse[..], config.bootloaderEnabled)
      requires jumpLater ==> !dirty && callbacks != null
      modifies this`bootloaderPending, this`responsePending, this`replies
      ensures PipelineInv() && replies == old(replies) + [pendingResponse[..]]
    {
      hide AcceptedJumps, Answers;
      AcceptedStep(transport.received, replies, pendingResponse[..], config.bootloaderEnabled);
      bootloaderPending := jumpLater;
      responsePending := true;
      replies := replies + [pendingResponse[..]];
      assert replies[..|replies| - 1] == old(replies);
    }

    /** Asks for a packet while nothing is outstanding. */
    method Take() returns (arrived: bool)
      requires Valid() && PipelineInv() && transport.Linked() && !responsePending && !bootloaderPending
      modifies transport, transport.slot, pendingResponse
      ensures Valid() && transport.Linked() && if arrived then Arrived() else PipelineInv()
      ensures transport.sent == old(transport.sent) && transport.attempts == old(transport.attempts)
      ensures old(transport.received) <= transport.received && transport.checks == old(transport.checks)
      ensures transport.polls == old(transport.polls) + 1
      ensures DefaultCore(config, ram[..]) == DefaultCore(config, old(ram[..]))
      ensures Now() == old(Now()) && Live() == old(Live()) && (storage.Some? ==> View() == old(View()))
      ensures Persistent() ==> Setup() == old(Setup())
    {
      hide KeymapBytes, EncoderMapBytes, Separate, Overlap, RangesOverlap, Core, DefaultCore, Mapped, Answers,
           AcceptedJumps, Mailbox.Run;
      arrived := transport.Receive(pendingResponse);
      RepliesOnly(pendingResponse);
      AcceptedPrefix(old(transport.received), transport.received, replies, config.bootloaderEnabled);
    }

    /** To do nothing is a step of the durability runs. */
    lemma NoStep()
      requires Valid() && Persistent()
      ensures Durability.Effect(Setup(), View(), View())
    {
      hide KeymapBytes, EncoderMapBytes, Separate, Core, DefaultCore, Mapped, Durability.SaveEffect,
           Durability.ResetEffect;
      assert Durability.EditEffect(View(), View());
    }

    /** Receives and processes a packet when nothing is outstanding. What is added to the
        history is that packet and the answer to it. */
    method Accept(nowMs: uint32)
      requires Valid() && PipelineInv() && transport.Linked()
      modifies this, transport, transport.slot, ram, custom, callbacks, pendingResponse
      modifies if storage.Some? then {storage.value.Buffer()} + storage.value.Device() else {}
      ensures Valid() && PipelineInv() && transport.Linked()
      ensures transport.sent == old(transport.sent) && transport.attempts == old(transport.attempts)
      ensures old(transport.received) <= transport.received && transport.checks == old(transport.checks)
      ensures transport.polls == old(transport.polls) + if old(responsePending || bootloaderPending) then 0 else 1
      ensures old(replies) <= replies && |replies| <= |old(replies)| + 1
      ensures old(responsePending || bootloaderPending) ==> replies == old(replies)
      ensures replies == old(replies) ==>
                Now() == old(Now()) && saveAt == old(saveAt) && (storage.Some? ==> View() == old(View()))
      ensures DefaultCore(config, ram[..]) == DefaultCore(config, old(ram[..]))
      ensures Persistent() ==> Setup() == old(Setup()) && Durability.Effect(Setup(), old(View()), View())
      ensures |replies| == |old(replies)| + 1 ==>
                var q, a := transport.received[|old(replies)|], replies[|old(replies)|];
                Commanded(q, a, nowMs)
      ensures Spends(WorstCost())
    {
      hide KeymapBytes, EncoderMapBytes, Separate, Overlap, RangesOverlap, Core, DefaultCore, Mapped, Answered, Honest,
           Answers, PipelineInv, View, Setup, Live, Now, Durability.Effect, Succeeds, Refused, StoredLive, Survives,
           Lasting, Mailbox.Run, AcceptedJumps, WorstCost;
      if responsePending || bootloaderPending {
        if Persistent() {
          NoStep();
        }
        return;
      }
      var arrived := Take();
      if arrived {
        Answer(nowMs);
      } else {
        if Persistent() {
          NoStep();
        }
      }
    }

    /** Tries to send the reply that is due; after an accepted bootloader request was
        answered and its transfer completed, the jump is made once. */
    method Deliver()
      requires Valid() && PipelineInv() && transport.Linked()
      modifies this, transport
      modifies if callbacks == null then {} else {callbacks.bootloader}
      ensures Valid() && PipelineInv() && transport.Linked()
      ensures replies == old(replies) && transport.received == old(transport.received)
      ensures old(transport.sent) <= transport.sent && old(transport.attempts) <= transport.attempts
      ensures |transport.attempts| == |old(transport.attempts)| + if old(responsePending) then 1 else 0
      ensures Now() == old(Now()) && saveAt == old(saveAt) && transport.polls == old(transport.polls)
      ensures bootloaderPending && !responsePending ==>
                transport.checks == old(transport.checks) + 1 && !transport.completed
      ensures JumpMade(old(Jumps()))
      ensures Live() == old(Live()) && DefaultCore(config, ram[..]) == DefaultCore(config, old(ram[..]))
      ensures storage.Some? ==> View() == old(View())
      ensures Persistent() ==> Setup() == old(Setup())
    {
      hide KeymapBytes, EncoderMapBytes, Separate, Overlap, RangesOverlap, Core, DefaultCore, Mapped, PipelineInv,
           Mailbox.Run;
      SendDue();
      JumpWhenDone();
    }

    method SendDue()
      requires PipelineInv() && pendingResponse.Length == PACKET_SIZE
      modifies this`responsePending, transport`attempts, transport`sent
      ensures PipelineInv()
      ensures old(transport.sent) <= transport.sent && old(transport.attempts) <= transport.attempts
      ensures |transport.attempts| == |old(transport.attempts)| + if old(responsePending) then 1 else 0
      ensures responsePending == (old(responsePending) && transport.sent == old(transport.sent))
    {
      hide Answers, AcceptedJumps;
      if responsePending {
        var sent := transport.Send(pendingResponse);
        if sent {
          responsePending := false;
        }
      }
    }

    /** The application was told to jump at most once more, and if so the request's reply was
        sent and completed with nothing unsaved. */
    ghost predicate JumpMade(before: int)
      reads this, transport
      reads if callbacks == null then {} else {callbacks.bootloader}
    {
      Jumps() == before || (Jumps() == before + 1 && !bootloaderPending && !dirty && transport.sent == replies
          && transport.completed)
    }

    method JumpWhenDone()
      requires PipelineInv()
      modifies this`bootloaderPending, transport`completed, transport`checks
      modifies if callbacks == null then {} else {callbacks.bootloader}
      ensures PipelineInv() && JumpMade(old(Jumps())) && (bootloaderPending ==> old(bootloaderPending))
      ensures transport.checks == old(transport.checks) + if old(!responsePending && bootloaderPending) then 1 else 0
      ensures old(!responsePending && bootloaderPending) && transport.completed ==> Jumps() == old(Jumps()) + 1
    {
      hide Answers, AcceptedJumps;
      if !responsePending && bootloaderPending {
        var complete := transport.SendComplete();
        if complete {
          bootloaderPending := false;
          callbacks.BootloaderJump();
        }
      }
    }

    /** One reply for each packet received. */
    lemma OneForOne()
      requires PipelineInv()
      ensures |replies| == |transport.received|
    {
      hide Answers, AcceptedJumps;
    }

    lemma DueIsUnsent()
      requires PipelineInv()
      ensures responsePending <==> |replies| > |transport.sent|
    {
      hide Answers, AcceptedJumps;
    }

    /** The time of a pending save has come, on a clock that wraps. */
    predicate Due(nowMs: uint32)
      reads this`saveAt
    {
      (nowMs - saveAt) % WORD_LIMIT < 0x8000_0000
    }

    /** Takes a packet if nothing is outstanding, answers it, and delivers what is due. */
    method Serve(nowMs: uint32)
      requires Valid() && PipelineInv() && transport.Linked()
      modifies this, transport, transport.slot, ram, custom, callbacks, pendingResponse
      modifies if callbacks == null then {} else {callbacks.bootloader}
      modifies if storage.Some? then {storage.value.Buffer()} + storage.value.Device() else {}
      ensures Valid() && PipelineInv() && transport.Linked()
      ensures DefaultCore(config, ram[..]) == DefaultCore(config, old(ram[..]))
      ensures Persistent() ==> Setup() == old(Setup()) && Durability.Effect(Setup(), old(View()), View())
      ensures old(replies) <= replies && |replies| <= |old(replies)| + 1
      ensures old(transport.received) <= transport.received
      ensures old(responsePending || bootloaderPending) ==> replies == old(replies)
      ensures old(transport.sent) <= transport.sent && old(transport.attempts) <= transport.attempts
      ensures |transport.attempts| == |old(transport.attempts)| + if |replies| > |old(transport.sent)| then 1 else 0
      ensures transport.polls == old(transport.polls) + if old(responsePending || bootloaderPending) then 0 else 1
      ensures bootloaderPending && !responsePending ==>
                transport.checks == old(transport.checks) + 1 && !transport.completed
      ensures Jumps() <= old(Jumps()) + 1
      ensures replies == old(replies) ==>
                Now() == old(Now()) && saveAt == old(saveAt) && (storage.Some? ==> View() == old(View()))
      ensures |replies| == |old(replies)| + 1 ==>
                var q, a := transport.received[|old(replies)|], replies[|old(replies)|];
                && Answered(config, old(Now()), q, Now(), a) && UptimeAnswered(q, a, nowMs)
                && saveAt == (if Edits(config, q, a) then (nowMs + config.autoSaveMs) % WORD_LIMIT else old(saveAt))
                && (Persistent() ==> Honest(Setup(), old(View()), q, View(), a))
                && (!Persistent() && q[0] in {0x09, 0x0A} ==> a[0] == 0xFF)
                && (old(Succeeds(q)) ==> a[0] != 0xFF)
                && (old(Refused(q)) ==> a[0] == 0xFF && (storage.Some? ==> View() == old(View())))
      ensures Spends(WorstCost())
    {
      hide KeymapBytes, EncoderMapBytes, Separate, Overlap, RangesOverlap, Core, DefaultCore, Mapped, Live, View, Setup,
           Valid, PipelineInv, Answered, Honest, Durability.SaveEffect, Durability.ResetEffect, Durability.Effect,
           Succeeds, Refused, StoredLive, Survives, Lasting, WorstCost, Mailbox.Run, Now;
      Accept(nowMs);
      DueIsUnsent();
      Deliver();
    }

    /** The main loop's step: one request at most, one send, at most one jump and a timed
        save. The state goes through at most two protocol steps; a packet taken in is
        answered from the state before, and `mid` is the state its answer left. Dirty state
        whose time has come is saved from there, and nothing else is. */
    method Task(nowMs: uint32) returns (ghost mid: Durability.System, ghost answered: State)
      requires Valid() && PipelineInv() && transport.Linked()
      modifies this, transport, transport.slot, ram, custom, callbacks, pendingResponse
      modifies if callbacks == null then {} else {callbacks.bootloader}
      modifies if storage.Some? then {storage.value.Buffer()} + storage.value.Device() else {}
      ensures Valid() && PipelineInv() && transport.Linked()
      ensures DefaultCore(config, ram[..]) == DefaultCore(config, old(ram[..]))
      ensures Persistent() ==> Setup() == old(Setup())
      ensures old(replies) <= replies && |replies| <= |old(replies)| + 1
      ensures old(transport.received) <= transport.received
      ensures old(responsePending || bootloaderPending) ==> replies == old(replies)
      ensures old(transport.sent) <= transport.sent && old(transport.attempts) <= transport.attempts
      ensures |transport.attempts| == |old(transport.attempts)| + if |replies| > |old(transport.sent)| then 1 else 0
      ensures transport.polls == old(transport.polls) + if old(responsePending || bootloaderPending) then 0 else 1
      ensures bootloaderPending && !responsePending ==>
                transport.checks == old(transport.checks) + 1 && !transport.completed
      ensures Jumps() <= old(Jumps()) + 1
      ensures |answered.ram| == ram.Length
      ensures replies == old(replies) ==>
                answered == old(Now()) && saveAt == old(saveAt) && (storage.Some? ==> mid == old(View()))
      ensures storage.Some? ==> mid.dirty == answered.dirty
      ensures |replies| == |old(replies)| + 1 ==>
                var q, a := transport.received[|old(replies)|], replies[|old(replies)|];
                && Answered(config, old(Now()), q, answered, a) && UptimeAnswered(q, a, nowMs)
                && saveAt == (if Edits(config, q, a) then (nowMs + config.autoSaveMs) % WORD_LIMIT else old(saveAt))
                && (Persistent() ==> Honest(Setup(), old(View()), q, mid, a))
                && (!Persistent() && q[0] in {0x09, 0x0A} ==> a[0] == 0xFF)
                && (old(Succeeds(q)) ==> a[0] != 0xFF)
                && (old(Refused(q)) ==> a[0] == 0xFF && (storage.Some? ==> mid == old(View())))
      ensures Persistent() ==>
                Durability.Effect(Setup(), old(View()), mid) && Durability.Effect(Setup(), mid, View())
      ensures Now() == answered.(dirty := dirty)
      ensures !(answered.dirty && Due(nowMs)) ==> dirty == answered.dirty && (storage.Some? ==> View() == mid)
      ensures answered.dirty && Due(nowMs) && Persistent() && Saves()
              && old(storage.value.Steady(WorstCost() + storage.value.SaveCost())) ==>
                !dirty && Durability.SaveEffect(Setup(), mid, View(), true)
      ensures Spends(WorstCost() + WorstCost())
    {
      hide KeymapBytes, EncoderMapBytes, Separate, Overlap, RangesOverlap, Core, DefaultCore, Mapped, Live, View, Setup,
           Valid, PipelineInv, Answered, Honest, Durability.SaveEffect, Durability.ResetEffect, Durability.Effect,
           Succeeds, Refused, StoredLive, Survives, Lasting, WorstCost, Mailbox.Run;
      Serve(nowMs);
      answered := Now();
      mid := Durability.System(NoMedium, [], [], false);
      if storage.Some? {
        mid := View();
      }
      Autosave(nowMs);
    }

    /** A save changes nothing of the pipeline. */
    twostate lemma PipelineStays()
      requires old(Valid() && PipelineInv() && transport.Linked())
      requires !dirty || dirty == old(dirty)
      requires responsePending == old(responsePending) && bootloaderPending == old(bootloaderPending)
      requires replies == old(replies) && unchanged(transport) && unchanged(pendingResponse)
      requires callbacks != null ==> unchanged(callbacks.bootloader)
      requires transport.slot != null ==> unchanged(transport.slot) && unchanged(transport.slot.requestBuffer)
      ensures PipelineInv() && transport.Linked()
    {
      hide Separate, Mapped, Answers, AcceptedJumps, Mailbox.Run;
    }

    /** Saves dirty state whose time has come. */
    method Autosave(nowMs: uint32)
      requires Valid() && PipelineInv() && transport.Linked()
      modifies this`dirty
      modifies if storage.Some? then {storage.value.Buffer()} + storage.value.Device() else {}
      ensures Valid() && PipelineInv() && transport.Linked()
      ensures Now() == old(Now()).(dirty := dirty) && (old(dirty) || !dirty)
      ensures DefaultCore(config, ram[..]) == DefaultCore(config, old(ram[..]))
      ensures Persistent() ==> Setup() == old(Setup()) && Durability.Effect(Setup(), old(View()), View())
      ensures !(old(dirty) && Due(nowMs)) ==> dirty == old(dirty) && (storage.Some? ==> View() == old(View()))
      ensures old(dirty) && Due(nowMs) && old(Savable()) ==>
                !dirty && Durability.SaveEffect(Setup(), old(View()), View(), true)
      ensures Spends(WorstCost())
    {
      hide KeymapBytes, EncoderMapBytes, Separate, Overlap, RangesOverlap, Core, DefaultCore, Mapped, PipelineInv,
           Durability.SaveEffect, Durability.ResetEffect, Durability.Effect, Setup, View, Live, Now, Persistent,
           Savable, WorstCost, Mailbox.Run;
      if dirty && (nowMs - saveAt) % WORD_LIMIT < 0x8000_0000 {
        var saved := Save();
        PipelineStays();
        return;
      }
      if Persistent() {
        NoStep();
      }
    }
  }
}
