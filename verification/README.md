# VIA keyboard firmware: a verified model

This project models the two stateful halves of the library, and the packet path between a
host and the first of them, and proves what holds over every run of each.

**Persistence.** `Protocol` keeps keymap, encoder map, macros, layout options and custom
state in one checksummed record on a storage adapter. The model has the record and its
CRC-32 (`Crc32`, `StateRecord`, `RecordWriter`), the adapters (`InternalFS` on two files,
`Backends` for NVS and plain memory, `FlashStorage` on two NOR slots), and the class
`ViaProtocol.Protocol` with its five buffers in one flat memory (`Layout`, `KeymapAccess`),
so that the source's own overlap test is what keeps them apart. Media are mutable objects
that lose power at any byte; the adapters' methods are proved against call relations
(`FileImage`, `FlashImage`, `Media`), and runs of those relations with power cuts refine an
atomic store (`Durability` for the whole stack). `StartUp` composes an adapter's start, Protocol's
and any number of tasks on the real objects and shows that each power-up continues a run of
`Durability`, so its theorems hold of the classes power-up after power-up.

**Keyboard engine.** `Matrix` scans and debounces, `Batches` is the three-pass batch,
`Layers` the reference-counted layers, `Reports` the six-key report, and the class
`KeyboardEngine.Keyboard` is the task that ties them together. `LayerCounts`,
`LayerToggles`, `BatchEffects` and `KeyboardRuns` prove what every lock-step run of scans and
tasks keeps.

**Packets.** `Mailbox` is the one-slot mailbox between Bluetooth callbacks and main loop,
once as whole accesses and once byte by byte under its mutex. `Protocol.Task` carries the
history of its transport and of its bootloader callback, and `PipelineInv` is what every task
keeps of it; over a mailbox the replies answer an in-order selection of the packets written.
`Commands` says what each request means as a relation between the state before and the state and
reply after, including what stays as it was, and `CommandBytes` what that is on the packet's own
bytes. `StartUp` gives tasks real times and says when edits are saved.

Specification functions and relations are what the methods are proved against; lemmas then
say what they mean. `Register` and `Places` are generic arithmetic: linear registers and
mixed-radix indices. Powers, refusals and faults of media are explicit: a medium that is
`Steady` does what it is told, and the contracts say what then succeeds; one that is not may
fail at every step, and the contracts say what then survives.

## Where code and documents differ

The model follows the code.

- Layer actions are 0 = MO, 1 = TG, 2 = TO, 3 = DF (`src/VIA_Keyboard.h:31-46`); the design
  table and the example sketches number them differently.
- The design (`docs/superpowers/specs/2026-08-01-stm32f103-keyboard-mvp-design.md:231-248`)
  says that every changed layer key is applied and that `MO(n)` is counted at its press. A
  key that becomes a momentary key only through another layer key of the same batch is
  latched by the third pass and not counted, and a `TO` key zeroes the counts of held layers.
  `BatchEffects.LayerCanBeMissed` is an input, and `BatchEffects.CountsStayExact` says exactly
  which batches do this (`Miscounts`).
- `src/VIA_Protocol.h:27-29` asks adapters to keep an erase provisional. The file adapter
  removes file A, then file B, and looks at neither result
  (`src/VIA_nRF52_InternalFS.cpp:216-224`). `FileImage.CutEraseRestoresOlder` is an input: a cut
  between the two removals brings back the save before the last one.
  `FileImage.EraseRestores` says exactly what a start-up finds, by which removals happened and
  which file was active; `Durability.CutResetRestores` carries that to factory resets. With
  power a removal may also be refused: `Durability.ResetIsDurable` says exactly when a reset
  that reported success is then still not what the next start-up restores, and
  `Durability.RefusalEnds` that this is over with the second successful save.
- `Protocol` writes its header twice and never erases before a save. `FlashStorage` refuses
  writes before an erase, and `RecordOnFlash.FinalHeaderProgrammable` shows that after one
  the second header fits only if the checksum is zero. The flash adapter is therefore proved
  under its own erase, write and commit discipline.
- A factory reset resets custom state before the steps that can fail
  (`src/VIA_Protocol.cpp:495`). A failed one leaves the state as it was if and only if it was
  refused before that, or the handler's reset leaves its bytes as they are
  (`Protocol.FactoryReset`, `Durability.FailedResetDrifts`); otherwise changed state counts as
  clean, as in `Durability.FailedResetExample`. Handlers that keep the base class's empty `reset`
  are of the second kind: a successful reset keeps their state, and only a reset that fails after
  files were removed leaves clean state that is not what was saved (`Durability.KeeperReset`,
  `Durability.KeepersNeverDrift`).

## Model

| member | source | states |
|---|---|---|
| Crc32.MaskedUpdate | src/VIA_Protocol.cpp:18-24 | the branch-free byte update absorbs the byte exactly as the bitwise register does |
| Crc32.FlashCrc | src/VIA_STM32F1_Flash.cpp:14-22 | the flash adapter's loop computes the CRC-32 of any byte string, the same as Protocol's |
| Crc32.FileCrc | src/VIA_nRF52_InternalFS.cpp:21-33 | the file adapter's loop continues a register over any chunk; its result is the complement of the others' |
| Crc32.RunAppend | src/VIA_Protocol.cpp:374-387 | summing pieces one after another is summing their concatenation |
| Crc32.RunIsTableRun | src/VIA_Protocol.cpp:18-24 | the register absorbs a byte by one entry of a table that is defined by polynomial arithmetic, without the register: the index times x^32 modulo x^32+x^26+x^23+x^22+x^16+x^12+x^11+x^10+x^8+x^7+x^5+x^4+x^2+x+1, bits reversed (section 8 of RFC 1952) |
| Crc32.TableIsSteps | src/VIA_Protocol.cpp:18-24 | the entry computed by multiplying by x modulo the generator is what eight register steps make of the index |
| Crc32.TableEntries | src/VIA_Protocol.cpp:18-24 | the entries of 1, 2, 4, ..., 128 are the published ones, 0x77073096 for 1; xor makes the others of them |
| Crc32.CheckValue | src/VIA_STM32F1_Flash.cpp:14-22 | the bytes 0x31 to 0x39 sum to 0xCBF43926, without the final complement to 0x340BC6D9 |
| Crc32.AbsorbFourBytes | src/VIA_Protocol.cpp:18-24 | absorbing four bytes is one 32-bit xor followed by 32 register steps |
| Crc32.BurstDetected | src/VIA_Protocol.cpp:18-24 | for every length and content, strings that differ only inside four consecutive bytes have different registers |
| StateRecord.RoundTrip | src/VIA_Protocol.cpp:389-469 | whatever was stored before, a staged record is read back as exactly its payload |
| StateRecord.RecordBytes | src/VIA_Protocol.cpp:8-16 | byte for byte what a record is on storage: magic, version 2, length and checksum low byte first, then the payload |
| StateRecord.ParsedIsRecord | src/VIA_Protocol.cpp:389-416 | contents are accepted for a payload if and only if they begin with that payload's record |
| StateRecord.DamageRejected | src/VIA_Protocol.cpp:389-416 | accepted contents changed in at most four neighbouring payload bytes, or in the header alone, are rejected |
| StateRecord.HeaderUnique | src/VIA_Protocol.cpp:11-16 | the four header fields determine all twelve header bytes |
| RecordWriter.StageRecord | src/VIA_Protocol.cpp:439-469 | header, five pieces and the final header leave the whole record at the start of storage and nothing else changed, with nothing durable yet |
| RecordOnFlash.FinalHeaderProgrammable | src/VIA_Protocol.cpp:449-466 | on NOR flash the final header can follow the provisional one if and only if the checksum is zero |
| FlashStorage.NorFlash.Write | tests/flash_test.cpp:19-31 | programming is refused unless it only clears bits; cut short, every byte is on its way and nothing else changed |
| FlashStorage.NorFlash.ErasePage | tests/flash_test.cpp:33-40 | an erase sets one page to 0xFF and no other byte |
| FlashStorage.FlashStorage.ValidateSlot | src/VIA_STM32F1_Flash.cpp:24-60 | a slot validates exactly when magic, marker and payload checksum stand, and counts as empty exactly when its envelope is erased |
| FlashStorage.FlashStorage.Begin | src/VIA_STM32F1_Flash.cpp:62-102 | the start-up choice: newer of two valid slots, the valid one, an erased one, or failure |
| FlashStorage.FlashStorage.Read | src/VIA_STM32F1_Flash.cpp:108-112 | reads return the exposed record's bytes, also while a replacement is staged |
| FlashStorage.FlashStorage.Write | src/VIA_STM32F1_Flash.cpp:114-118 | only the provisional slot's payload is programmed; on a steady part it succeeds exactly when the bits allow it |
| FlashStorage.FlashStorage.Erase | src/VIA_STM32F1_Flash.cpp:153-164 | the slot that is not active is erased and numbered next; steady parts never fail |
| FlashStorage.FlashStorage.Commit | src/VIA_STM32F1_Flash.cpp:120-151 | every outcome of the envelope and marker writes; over an erased envelope a steady part commits |
| FlashImage.BootExposes | src/VIA_STM32F1_Flash.cpp:62-102 | whatever the other slot holds, a start-up succeeds and exposes the committed record, or the one whose commit was cut exactly when its marker and checksum stand |
| FlashImage.SlotBytes | src/VIA_STM32F1_Flash.cpp:24-60 | byte for byte when a slot is committed and when its envelope is blank |
| FlashImage.SlotPlaces | src/VIA_STM32F1_Flash.h:21-28 | where the slots are and which bytes of one are its number |
| FlashImage.CommitDecides | src/VIA_STM32F1_Flash.cpp:120-151 | the marker byte alone decides a commit: the slot is valid if and only if it is fully programmed |
| FlashImage.NextKeeps | src/VIA_STM32F1_Flash.cpp:62-164 | every start-up, erase, write and commit, cut anywhere, keeps the two-slot invariant |
| FlashImage.FlashAtomicity | src/VIA_STM32F1_Flash.cpp:24-164 | over all runs from erased flash: reads see the last commit, two valid slots have neighbouring numbers modulo 2^32, and start-up never fails and never mixes records |
| FlashImage.BlankUntilCommitted | src/VIA_STM32F1_Flash.cpp:62-112 | until a commit succeeds or a start-up picks the whole record of a cut one, all 2032 bytes read 0xFF, whatever was erased, staged or cut |
| Bytes.SerialOrder | src/VIA_STM32F1_Flash.cpp:81-90 | serial comparison (section 3.2 of RFC 1982) orders a number after its predecessor, also at 2^32 wrap |
| Bytes.NewerMeans | src/VIA_STM32F1_Flash.cpp:81-90 | a number is newer than another exactly when it is 1 to 2^31 - 1 steps ahead, wrap included |
| InternalFS.InternalFSStorage.PayloadMatches | src/VIA_nRF52_InternalFS.cpp:56-65 | the 256-byte chunks accept a file exactly when the one-piece checksum of the payload matches, for every length |
| InternalFS.InternalFSStorage.CheckFile | src/VIA_nRF52_InternalFS.cpp:51-73 | a file passes at start-up exactly when it is a valid record of this capacity |
| InternalFS.FileSystem.Remove | src/VIA_nRF52_InternalFS.cpp:216-220 | tells whether the file went: it may be refused, and without power it always is; nothing else on the medium changes |
| InternalFS.InternalFSStorage.Begin | src/VIA_nRF52_InternalFS.cpp:43-136 | start-up stages the newer valid payload, the only valid one, or zeros |
| InternalFS.InternalFSStorage.WriteFile | src/VIA_nRF52_InternalFS.cpp:163-180 | cut anywhere, only the inactive file changed, and to something no longer than the new record |
| InternalFS.InternalFSStorage.ReadBack | src/VIA_nRF52_InternalFS.cpp:183-210 | success is reported only for a file that validates, and always for the whole record |
| InternalFS.InternalFSStorage.Commit | src/VIA_nRF52_InternalFS.cpp:154-214 | the active file is never touched; true means the whole next generation is in its home; on a steady medium it is true |
| InternalFS.InternalFSStorage.Erase | src/VIA_nRF52_InternalFS.cpp:216-224 | each file is gone or as before and told so, A before B unless the medium refuses removals, staging is zero, and success is reported either way; on a steady medium both are gone |
| FileImage.OnlyWholeRecords | src/VIA_nRF52_InternalFS.cpp:154-214 | after an interrupted or faulty write the file is as before, the whole record, or invalid |
| FileImage.FileBytes | src/VIA_nRF52_InternalFS.cpp:10-19 | byte for byte what a file record is: magic, generation, length and checksum low byte first, then the payload |
| FileImage.BootLoads | src/VIA_nRF52_InternalFS.cpp:99-119 | start-up loads the committed record, or the one in flight exactly when its file is whole |
| FileImage.EraseRestores | src/VIA_nRF52_InternalFS.cpp:216-224 | after an erase cut anywhere start-up finds, by which removals happened and which file was active: the record in flight while its whole file stays, else the committed one while the active file stays, else its whole predecessor while that stays, else nothing |
| FileImage.CutEraseRestoresOlder | src/VIA_nRF52_InternalFS.cpp:216-224 | with generations 3 and 2 on the medium, a cut between the removals brings back generation 2 |
| FileImage.ResetLoads | src/VIA_nRF52_InternalFS.cpp:154-224 | after an erase and a successful commit start-up loads that record, except exactly when file B stayed with a valid generation that 1 is not newer than; never so on a medium that fails only by losing power |
| FileImage.RestartLoads | src/VIA_nRF52_InternalFS.cpp:99-224 | between the first and the second save after a refused removal start-up loads the first one, except exactly when file B holds a valid record that is not older |
| FileImage.StepKeeps | src/VIA_nRF52_InternalFS.cpp:43-224 | every start-up, write, commit and erase, cut anywhere, keeps valid records in their home files and the medium accounted for |
| FileImage.FileAtomicity | src/VIA_nRF52_InternalFS.cpp:43-224 | over all runs from an empty file system, erases included: odd generations only in file A, even only in B, through wrap-around; start-up loads the committed record, or the one in flight exactly when its file is whole; after one save since a refused removal, that save unless file B kept a record that is not older |
| FileImage.SecondSaveRestoresOrder | src/VIA_nRF52_InternalFS.cpp:154-224 | over all runs, a removal that was refused matters no longer after the second successful save: it overwrites the file that stayed |
| Backends.NVSStorage.Begin | src/VIA_ESP32_NVS.h:27-36 | a blob of the full size is staged, anything else is an erased store |
| Backends.NVSStorage.Commit | src/VIA_ESP32_NVS.h:54-56 | the blob afterwards is the old one or the whole shadow, and the shadow if true |
| Backends.Storage.Write | src/VIA_Protocol.h:30-38 | on every adapter a write in bounds changes exactly the given stretch of the staged bytes and nothing durable |
| Backends.Storage.Commit | src/VIA_Protocol.h:30-38 | the commit contract of each adapter, and success when nothing goes wrong |
| Backends.Storage.Erase | src/VIA_Protocol.h:30-38 | the staged bytes are blank; NVS and memory keep what is durable, files lose what was removed, A before B, and power is left only when both went unless removals are refused |
| Media.BlankStarts | src/VIA_ESP32_NVS.h:23-35 | what an empty medium stages at start-up: zeros from files, 0xFF from NVS |
| Durability.EffectIsStep | src/VIA_Protocol.cpp:389-540 | every state change the class Protocol may make is an edit, save or reset of the durability runs, whatever the handler's reset does |
| Durability.DamagedNeverLoads | src/VIA_Protocol.cpp:389-432 | stored contents that load no longer do after a burst of up to four payload bytes or any header-only damage |
| Durability.SavedFaithful | src/VIA_Protocol.cpp:389-469 | what a save stages is what a later load publishes |
| Durability.BootRestores | src/VIA_Protocol.cpp:51-70 | a start-up restores the last completed save, or on files the attempt since exactly when its record is whole, on NVS one of the two; also after a refused removal, once one save has followed |
| Durability.NextKeeps | src/VIA_Protocol.cpp:389-540 | edits, saves, resets and start-ups with power cuts keep the durability invariant on files and NVS |
| Durability.ResetIsDurable | src/VIA_Protocol.cpp:506-535 | a reset that reports success is what the next start-up restores, except exactly when the medium refused to remove a file B that is not older |
| Durability.CutResetRestores | src/VIA_Protocol.cpp:506-517 | a reset on files that failed or was cut leaves to the next start-up, by which files went, which was active and which are whole: the new record, the attempt before, the last save, the save before that, or the defaults |
| Durability.FailedResetDrifts | src/VIA_Protocol.cpp:493-517 | after a reset that failed before touching files a clean, saved state is still what was saved if and only if the handler's reset leaves its bytes as they are |
| Durability.FailedResetExample | src/VIA_Protocol.cpp:493-517 | one saved state with a custom byte, a handler that clears it and a refused commit: the live state is changed and clean, and the next start-up brings the saved one back |
| Durability.KeeperReset | src/VIA_Protocol.h:46-46 | with a handler that does not override reset, a successful factory reset restores everything but custom state, and a failed one changes nothing |
| Durability.KeepersNeverDrift | src/VIA_Protocol.h:46-46 | with such a handler, over all runs in which no reset failed after files were removed, state that is not dirty is always what was saved |
| Durability.DurableState | src/VIA_Protocol.cpp:51-70 | end to end over all runs with resets on files and NVS: the next start-up yields the last completed save or the attempt since, on files exactly by whether its file is whole, and after a refused removal by whether file B kept a record that is not older; state that is not dirty is what was saved, unless a failed reset changed custom state or erased files |
| Durability.RefusalEnds | src/VIA_nRF52_InternalFS.cpp:154-224 | over all runs, a refused removal is over with the second successful save, that of the reset included |
| Durability.SavedIsLastSuccess | src/VIA_Protocol.cpp:434-540 | later edits, failed saves and failed resets that erased no file never displace the last successful save or reset |
| Durability.Continue | src/VIA_Protocol.cpp:51-90 | a run, a start-up on what it left and the states passed until the next one are a run again |
| StartUp.StartOnFiles | src/VIA_nRF52_InternalFS.cpp:43-136 | on the real objects, adapter start then Protocol start is the start-up of the durability runs on the files as they were left |
| StartUp.StartOnNvs | src/VIA_ESP32_NVS.h:27-36 | the same on the blob as it was left |
| StartUp.DueIsTime | src/VIA_Protocol.cpp:89-89 | the 32-bit comparison of clock and save time, for real times: not due before edit time plus delay, due from then on for 2^31 ms, however often the clock wrapped |
| StartUp.RunTasks | src/VIA_Protocol.cpp:72-90 | any number of tasks at real, non-decreasing times: no task saves before the last edit is autoSaveMs old, one that comes then or up to 2^31 ms later saves dirty state on steady storage, and all pass through protocol steps of one unchanged configuration, two for each task |
| StartUp.RunOnFiles | src/VIA_Protocol.cpp:51-90 | a power-up on files with all its tasks, after any run that left these files, continues that run and saves in time |
| StartUp.RunOnNvs | src/VIA_Protocol.cpp:51-90 | the same on NVS |
| ViaProtocol.Protocol.StateCrc | src/VIA_Protocol.cpp:374-387 | the piecewise checksum is that of the concatenated payload that a load reads in one piece |
| ViaProtocol.Protocol.StageLive | src/VIA_Protocol.cpp:439-466 | storage holds the record of exactly the live state, or on refusal is unchanged |
| ViaProtocol.Protocol.WriteState | src/VIA_Protocol.cpp:439-469 | a save records the live state whole or leaves the durable record alone; clean only on success; live state untouched; success on a steady medium |
| ViaProtocol.Protocol.Load | src/VIA_Protocol.cpp:389-432 | true exactly when the stored contents hold an acceptable record, which is then live byte for byte; otherwise live state, dirty and notifications are unchanged |
| ViaProtocol.Protocol.Begin | src/VIA_Protocol.cpp:51-70 | stored state if acceptable, else the defaults and what the handler's reset makes of its power-up bytes, with one notification and not dirty |
| ViaProtocol.Protocol.SaneMeans | src/VIA_Protocol.cpp:51-62 | spelled out, the configurations a start accepts: sizes, buffers, custom bytes, record length and a workspace that shares no byte with the other buffers |
| ViaProtocol.Protocol.StageDefaults | src/VIA_Protocol.cpp:478-498 | the workspace holds the defaults and what the handler's reset made of its bytes, or zeros when it refuses to save them; keymap, encoders, macros and options stay |
| ViaProtocol.Protocol.StoreFactory | src/VIA_Protocol.cpp:506-517 | the erase, the whole record of the workspace payload and the commit, each with its effect on the medium; live state is untouched; success on a steady medium |
| ViaProtocol.Protocol.FactoryReset | src/VIA_Protocol.cpp:471-540 | on success the stored record is byte for byte that of the live state, which is the defaults and what the handler's reset made of its bytes, the next start-up restores it, the state is clean and each callback is made once; on failure the live state stays if and only if nothing was attempted or the handler's reset keeps its bytes; success whenever storage, workspace and handler allow |
| ViaProtocol.Protocol.ResetAble | src/VIA_Protocol.cpp:478-540 | storage is erased if and only if the factory payload was validated, what is committed is its record, and it is published only after the commit; otherwise storage is untouched |
| Layout.OverlapIsSharedAddress | src/VIA_Protocol.cpp:26-34 | the address comparison holds if and only if some byte lies in both ranges |
| Layout.StateSize | src/VIA_Protocol.cpp:335-349 | the payload size by the dimensions, refused above 16 custom bytes or a 65535-byte record |
| Layout.CorePieces | src/VIA_Protocol.cpp:374-387 | every payload byte by its place: keymap, encoder map, macros, options low byte first |
| Layout.DefaultPieces | src/VIA_Protocol.cpp:478-498 | every byte of the default payload by its place |
| Layout.PublishedExactly | src/VIA_Protocol.cpp:417-431 | with a valid workspace, publishing puts exactly the staged bytes in every buffer and changes neither workspace nor defaults |
| Layout.StagePiece | src/VIA_Protocol.cpp:478-498 | with a valid workspace, staging changes neither live state nor defaults |
| Layout.DefaultedExactly | src/VIA_Protocol.cpp:307-315 | resetting the buffers makes the live state the defaults and keeps the defaults |
| KeymapAccess.CellsInjective | src/VIA_Protocol.cpp:279-290 | different keys on the board have different cells |
| Places.SameCell | src/VIA_Keyboard.h:62-75 | the engine's layer and position index and Protocol's layer, row and column index are the same cell |
| ViaProtocol.Protocol.GetKeycode | src/VIA_Protocol.cpp:279-283 | the key's stored code, zero off the board |
| ViaProtocol.Protocol.SetKeycode | src/VIA_Protocol.cpp:285-290 | sets that key, no other key and no other byte; refused off the board |
| ViaProtocol.Protocol.ReadDynamicKeymap | src/VIA_Protocol.cpp:542-554 | the slice of the flat big-endian keymap, zero beyond its end |
| ViaProtocol.Protocol.WriteDynamicKeymap | src/VIA_Protocol.cpp:556-571 | overwrites exactly the in-range slice of the flat keymap, and is dirty if and only if that is not empty |
| ViaProtocol.Protocol.HandleKey | src/VIA_Protocol.cpp:162-176 | commands 0x04 and 0x05 carry codes big-endian; a stored key changes its two bytes and no other, is dirty and restarts the save time, a refused one changes nothing |
| ViaProtocol.Protocol.HandleBulk | src/VIA_Protocol.cpp:241-252 | commands 0x12 and 0x13 with any offset and size, capped at 28, act on the flat keymap; no byte outside it and no option changes; a write that reaches the keymap is dirty and restarts the save time (byte by byte in CommandBytes) |
| ViaProtocol.Protocol.HandleKeymapReset | src/VIA_Protocol.cpp:177-183 | keymap and encoder map equal their defaults, every other byte and the options stay, and the state is dirty |
| ViaProtocol.Protocol.HandleMacros | src/VIA_Protocol.cpp:202-240 | macro reads return the slice, macro writes overwrite exactly the in-range part, a reset zeroes all, counts and sizes are the configured ones; nothing outside the macro buffer changes; edits restart the save time (byte by byte in CommandBytes) |
| ViaProtocol.Protocol.HandleEncoder | src/VIA_Protocol.cpp:253-272 | reads and writes the two bytes of the encoder direction named and no other; out of range replies 0xFF and changes nothing |
| ViaProtocol.Protocol.HandleGetValue | src/VIA_Protocol.cpp:94-148 | version, uptime, options and firmware version big-endian in their places, the rest of the packet echoed, unknown values refused, nothing changed |
| ViaProtocol.Protocol.HandleSetValue | src/VIA_Protocol.cpp:149-161 | layout options become the big-endian request word, dirty, notified with it and due for a save autoSaveMs later; an indication is only notified; every other request replies 0xFF; memory stays |
| Commands.KeyAlone | src/VIA_Protocol.cpp:285-290 | setting one key leaves every other key, all encoders, the macros and the options |
| Commands.EncoderAlone | src/VIA_Protocol.cpp:263-272 | setting one encoder direction leaves every other direction, the keymap, the macros and the options |
| Commands.KeyInFlat | src/VIA_Protocol.cpp:279-290 | a key's code is two neighbouring bytes of the flat keymap at its cell, high byte first |
| Commands.KeyIsBulk | src/VIA_Protocol.cpp:542-571 | the two bytes of a key are at the flat place a bulk request names by 256 * q[1] + q[2]: a two-byte 0x13 there sets that key and no other, and a two-byte 0x12 returns it |
| Commands.BulkRoundTrip | src/VIA_Protocol.cpp:241-252 | a bulk write is read back byte for byte as far as the keymap reaches, and as zeros beyond |
| Commands.EditsDirty | src/VIA_Protocol.cpp:317-321 | what counts as an edit makes the state dirty, and no other packet makes clean state dirty |
| CommandBytes.BulkRead | src/VIA_Protocol.cpp:241-246 | on the packet bytes: reply byte 4+i of 0x12 is flat keymap byte 256*q[1]+q[2]+i where that exists and zero beyond, for i below 28 and q[3]; the rest is echoed and nothing changes |
| CommandBytes.BulkWrite | src/VIA_Protocol.cpp:247-252 | on the packet bytes: 0x13 makes flat byte k equal q[4+k-at] exactly for k from at = 256*q[1]+q[2], at most 28 and q[3] of them, and leaves every other flat byte |
| CommandBytes.MacroRead | src/VIA_Protocol.cpp:209-218 | the same of 0x0E on the macro buffer |
| CommandBytes.MacroWrite | src/VIA_Protocol.cpp:219-233 | the same of 0x0F on the macro buffer |
| CommandBytes.KeyRead | src/VIA_Protocol.cpp:162-167 | 0x04 replies high and low byte of the cell at place (q[1] * rows + q[2]) * columns + q[3], zeros off the board; the rest is echoed and nothing changes |
| CommandBytes.KeyWrite | src/VIA_Protocol.cpp:168-176 | 0x05 stores q[4] as high and q[5] as low byte of that cell and changes no other byte; off the board it is refused untouched |
| CommandBytes.EncoderRead | src/VIA_Protocol.cpp:253-263 | 0x14 replies the cell at place (q[1] * encoders + q[2]) * 2 + q[3]; out of range it is refused |
| CommandBytes.EncoderWrite | src/VIA_Protocol.cpp:264-272 | 0x15 stores the two bytes of that cell and changes no other byte; out of range it is refused untouched |
| CommandBytes.ValueBytes | src/VIA_Protocol.cpp:94-161 | on the packet bytes: the protocol version, options and firmware version in bytes 2 to 5 high byte first, and options set the same way |
| CommandBytes.ResetBytes | src/VIA_Protocol.cpp:177-240 | 0x06 makes keymap and encoder map the built-in ones byte for byte and leaves the macros; 0x10 zeroes the macros and leaves the keymap |
| ViaProtocol.Protocol.HandleCustom | src/VIA_Protocol.cpp:184-190 | command 0x07 changes custom state alone and is dirty exactly when the handler takes the value, 0x08 changes nothing, and both are refused without a handler |
| ViaProtocol.Protocol.HandleSave | src/VIA_Protocol.cpp:191-193 | succeeds when the handler agrees and nothing goes wrong in storage, is refused untouched without its agreement, and changes nothing but storage and dirtiness |
| ViaProtocol.Protocol.HandleReset | src/VIA_Protocol.cpp:194-196 | succeeds when enabled and storage, workspace and handler allow; refused untouched when not enabled or impossible |
| ViaProtocol.Protocol.HandleBootloader | src/VIA_Protocol.cpp:197-201 | succeeds when enabled with callbacks and the state is clean or can be saved; refused untouched when not enabled, without callbacks, or dirty without storage |
| ViaProtocol.Protocol.ProcessStored | src/VIA_Protocol.cpp:191-201 | a success reply to a save or reset means exactly such a step, and after a reset that the next start-up restores the live state; to a bootloader request, that nothing is unsaved; success when handler, storage and options allow, refusal untouched when they rule it out |
| ViaProtocol.Protocol.Process | src/VIA_Protocol.cpp:92-277 | any packet, unknown opcodes included, is answered as its command means, makes an edit that leaves the state dirty and due for a save autoSaveMs from now, a save or a reset and nothing else; a success reply to save, reset or bootloader is honest, and comes when handler, storage and options allow |
| ViaProtocol.Protocol.Answer | src/VIA_Protocol.cpp:73-80 | a received packet is processed: what is due next is its answer, from the state before, as Process states it |
| ViaProtocol.Protocol.Accept | src/VIA_Protocol.cpp:72-80 | polls once if and only if nothing is outstanding; what is added to the history is the packet received and the answer to it, as Process states it, and without one no state changes |
| Handlers.Transport.Receive | src/VIA_ESP32_BLE_ViaTransport.cpp:131-141 | over a mailbox a receive is one locked or refused access to its slot, and what was received stays what the mailbox handed over |
| ViaProtocol.Protocol.RepliesAnswerWrites | src/VIA_ESP32_BLE_ViaTransport.cpp:96-141 | over a mailbox, every reply so far answers a packet that was written under the mutex, in the order of the writes and each once, and the host got a prefix of the replies |
| ViaProtocol.Protocol.SendDue | src/VIA_Protocol.cpp:81-83 | one attempt with the reply that is due, kept until it is accepted |
| ViaProtocol.Protocol.JumpWhenDone | src/VIA_Protocol.cpp:84-88 | the callback is called once, after its reply was sent and completed with nothing unsaved, and not at all otherwise |
| ViaProtocol.Protocol.Autosave | src/VIA_Protocol.cpp:89-89 | nothing before its time; when due on a steady medium with a handler that saves, the state is saved whole and clean, also across clock wrap; what due means in real time is StartUp.DueIsTime |
| ViaProtocol.Protocol.Task | src/VIA_Protocol.cpp:72-90 | keeps the history invariant and the configuration: one reply per packet and it answers that packet from the state before it, retries carry the same bytes, replies are accepted in order, an edit makes its save due autoSaveMs later and nothing else moves that time, calls of the jump callback and the one outstanding equal the accepted bootloader requests; then dirty state whose time has come is saved when nothing goes wrong, and nothing else is; at most two durability steps |
| Mailbox.MailboxSlot.OnWrite | src/VIA_ESP32_BLE_ViaTransport.cpp:96-110 | a whole packet that gets the mutex fills the empty slot or counts as dropped; anything else changes nothing |
| Mailbox.MailboxSlot.OnDisconnect | src/VIA_ESP32_BLE_ViaTransport.cpp:123-129 | a disconnect that gets the mutex empties the slot |
| Mailbox.MailboxSlot.ReceivePacket | src/VIA_ESP32_BLE_ViaTransport.cpp:131-141 | hands over exactly the pending packet, once |
| Mailbox.Conservation | src/VIA_nRF52_BLE_ViaTransport.cpp:66-96 | over all runs: locked writes = delivered + dropped + discarded + pending, drops shown modulo 2^32, and nothing discarded without disconnects |
| Mailbox.InOrder | src/VIA_ESP32_BLE_ViaTransport.cpp:96-141 | over all runs delivered packets are an in-order subsequence of the writes, each write at most once |
| Mailbox.SmallStepsAreAccesses | src/VIA_ESP32_BLE_ViaTransport.cpp:96-141 | however byte copies and lock attempts of any tasks interleave, the mailbox behaves as whole accesses in the order they took effect |
| Mailbox.EveryGrantIsWritten | src/VIA_ESP32_BLE_ViaTransport.cpp:96-110 | those whole accesses write exactly the packets whose write got the mutex, in order |
| Mailbox.NeverTorn | src/VIA_nRF52_BLE_ViaTransport.cpp:66-96 | byte by byte, no delivered packet is torn, repeated or out of order |
| Matrix.Matrix.ScanByRows | src/VIA_Matrix.cpp:6-19 | driving rows reads exactly the closed switches |
| Matrix.Matrix.ScanByColumns | src/VIA_Matrix.cpp:20-39 | driving columns reads the same bitmap from the same switches |
| Matrix.Matrix.Task | src/VIA_Matrix.cpp:5-76 | one scan in either direction is one step of the debounce over that bitmap |
| Matrix.Matrix.HasChanged | src/VIA_Matrix.h:62-70 | true exactly when some row changed, and the reports are cleared |
| Matrix.ChangesOnlyAfterHold | src/VIA_Matrix.cpp:41-75 | over all timed traces stable rows change only when the whole raw matrix has been the same for the debounce time, across clock wrap |
| Matrix.HeldIsPublished | src/VIA_Matrix.cpp:65-75 | a raw matrix held since it appeared is published by then if and only if some scan since came with the debounce time passed on the 32-bit clock, or that time is zero |
| Matrix.WaitIsTight | src/VIA_Matrix.h:72-78 | the suggested wait is exact: no scan before its end changes anything, the scan at its end publishes |
| Matrix.ScanReportsDifference | src/VIA_Matrix.cpp:54-75 | the reported changes are exactly the difference of the stable rows |
| Keycodes.LayerCodes | src/VIA_Keycodes.h:17-65 | classification and field extraction agree on what a layer code is |
| Keycodes.ClassesByHighByte | src/VIA_Keycodes.h:17-41 | the class of every code by its high byte, as the switch lists them |
| Keycodes.ClassEdges | src/VIA_Keycodes.h:17-49 | the codes at both ends of every class, and what usages and modifier bits come of them |
| Keycodes.MasksDisjoint | src/VIA_Keycodes.h:47-49 | different modifiers have different bits of the modifier byte |
| Layers.LayerState.ApplyLayerPress | src/VIA_Keyboard.h:27-47 | the specified press on the fields, with eight-bit wrap of counts |
| Layers.PressBits | src/VIA_Keyboard.h:27-47 | from the bits of the code: 0x5200+l puts layer l on and counts one, 0x5220+l flips layer l alone, 0x5240+l leaves exactly layer l on and zeroes the counts of existing layers, 0x5260+l changes only the default layer; other codes and missing layers change nothing |
| Layers.ToggleTwice | src/VIA_Keyboard.h:36-38 | two toggle presses restore everything |
| Layers.ReleaseBits | src/VIA_Keyboard.h:49-60 | from the bits of the code: only 0x5200+l with a positive count does anything: it counts down, and layer l goes off exactly with the last one |
| Layers.LayerState.ApplyLayerRelease | src/VIA_Keyboard.h:49-60 | only a momentary release counts down, and its layer goes off with the last one |
| Layers.LayerState.ResolveCode | src/VIA_Keyboard.h:62-75 | the loop over the mask is the lookup function |
| Layers.ResolveMeaning | src/VIA_Keyboard.h:62-75 | the lookup is the topmost active layer that is opaque there, else the default layer |
| Reports.BuildReport | src/VIA_Keyboard.cpp:172-208 | the two passes build the specified report for any latched matrix; what it says is stated by the next two rows |
| Reports.ReportKeys | src/VIA_Keyboard.cpp:187-205 | on the report itself: with more than six positions that hold a basic code all six keys are 1; with at most six, key k is the low byte of the k-th position that is the first to hold its low byte, and 0 beyond |
| Reports.ReportModifiers | src/VIA_Keyboard.cpp:178-185 | on the report itself, also under roll-over: each of the eight bits is set exactly when its code, 0x00E0 to 0x00E7, is held |
| Reports.UsagesMeaning | src/VIA_Keyboard.cpp:192-205 | reported usages are exactly those held, in order of first position |
| Reports.UsagesDistinct | src/VIA_Keyboard.cpp:199-204 | no usage is reported twice |
| Reports.ModifierHeld | src/VIA_Keyboard.cpp:178-185 | a modifier bit is set if and only if its code is held, also under roll-over |
| Reports.NothingHeld | src/VIA_Keyboard.cpp:172-208 | with nothing held the report is all zero |
| BatchEffects.BatchLatches | src/VIA_Keyboard.cpp:61-133 | the three passes position by position: releases clear, holds stay, layer keys latch in order, every other press resolves against the layers after the whole batch |
| BatchEffects.CountsStayExact | src/VIA_Keyboard.cpp:105-133 | for any keymap, layer counts equal held momentary keys after a batch if and only if no switch-to key wiped a held layer and the third pass met no momentary code |
| BatchEffects.LayerCanBeMissed | src/VIA_Keyboard.cpp:118-122 | two keys of one batch that leave MO(2) held with layer 2 off |
| BatchEffects.BootsMeans | src/VIA_Keyboard.cpp:99-128 | the passes flag a boot request if and only if some newly pressed position was latched as a boot key |
| LayerCounts.SweepBounded | src/VIA_Keyboard.cpp:61-133 | no pass lets a layer's count exceed the positions that hold its momentary code |
| LayerCounts.SweepNoWrap | src/VIA_Keyboard.h:31-36 | whenever the layer pass reaches a momentary key its count is below 255 and goes up by exactly one |
| LayerCounts.SweepMask | src/VIA_Keyboard.cpp:61-133 | with momentary and default-layer codes only, every pass keeps a layer active exactly while its count is positive |
| LayerToggles.BatchToggles | src/VIA_Keyboard.cpp:61-133 | with toggle codes only, a batch flips a layer exactly when the layer pass meets an odd number of its presses |
| KeyboardEngine.Keyboard.ReleaseAll | src/VIA_Keyboard.cpp:62-80 | the nested loops are the release pass over flat positions |
| KeyboardEngine.Keyboard.PressLayerKeys | src/VIA_Keyboard.cpp:82-103 | the nested loops are the layer pass |
| KeyboardEngine.Keyboard.PressRest | src/VIA_Keyboard.cpp:105-132 | the nested loops are the pass over all other presses |
| KeyboardEngine.Keyboard.TakeLeds | src/VIA_Keyboard.cpp:26-32 | the loop tells a listening application exactly the changes in the queued indicator states, and empties the queue |
| KeyboardEngine.Keyboard.Task | src/VIA_Keyboard.cpp:25-170 | host LEDs, pending report, batch, suspend, wake-up call, resume, new report and boot callback in one step from any state |
| KeyboardRuns.RunTurn | examples/ESP32_WROOM32_VIA_BLE/ESP32_WROOM32_VIA_BLE.ino:169-173 | matrix task then keyboard task on the real objects is one turn of the runs below |
| KeyboardRuns.RunInvariant | src/VIA_Keyboard.cpp:25-170 | every lock-step run keeps latch, counts and report agreement |
| KeyboardRuns.PressTimeLatch | src/VIA_Keyboard.cpp:61-133 | a position has a code only while stably pressed, and the same one for the whole hold, whatever keymap writes arrive |
| KeyboardRuns.CountsNeverWrap | src/VIA_Keyboard.h:31-36 | in every run no count exceeds the keys holding that layer, and every momentary press that the layer pass of any turn reaches finds its count below 255 and adds exactly one |
| KeyboardRuns.CountsExactRun | src/VIA_Keyboard.cpp:61-133 | over all runs, counts were exact after every turn so far if and only if no batch so far wiped a held layer or met an unapplied momentary code |
| KeyboardRuns.NoStuckLayer | src/VIA_Keyboard.h:27-60 | with momentary and default-layer codes only, an active layer has its key held, and none is active with all keys up |
| KeyboardRuns.ToggleParity | src/VIA_Keyboard.h:36-38 | over all runs with toggle codes only, a layer is on exactly after an odd number of its presses |
| KeyboardRuns.ReportAgreement | src/VIA_Keyboard.cpp:34-166 | the last report handed over is the one due and, unless the host is suspended, says what is latched: all zero with all keys up |
| KeyboardRuns.ReportTurn | src/VIA_Keyboard.cpp:34-166 | over all runs, exactly what one turn hands over and accepts: a pending report that is not completed is handed over again, a completed one becomes the last accepted and stops pending, a report that differs from the one due is handed over and pends, and nothing else happens |
| KeyboardRuns.ResentUntilCompleted | src/VIA_Keyboard.cpp:34-41 | over all runs, while no turn completes, something pends, is handed over in every turn, and the last accepted report stays |
| KeyboardRuns.WokenOnce | src/VIA_Keyboard.cpp:135-148 | while the host stays suspended it is woken at most once, however many turns pass |
| KeyboardRuns.WakeTurn | src/VIA_Keyboard.cpp:135-151 | over all runs, exactly when a turn wakes the host and when the next suspension may wake it again |
| KeyboardRuns.BootRequests | src/VIA_Keyboard.cpp:59-169 | over all runs the application is asked for the bootloader in exactly the turns in which a boot key was newly pressed, it listened and the host was awake |
| KeyboardRuns.LedsPassedOn | src/VIA_Keyboard.cpp:26-32 | over all runs the application is told exactly the changes in the whole sequence of indicator states, wherever turns cut it |
| KeyboardEngine.ChangesGrow | src/VIA_Keyboard.cpp:26-32 | what the application is told of a longer sequence: one more state exactly when it differs from the one before |

## Left out

- USB, Bluefruit, NimBLE and TinyUSB stacks, descriptors, advertising, GPIO, settle delays:
  foreign calls; the matrix lines read low exactly when a closed switch joins them to a
  driven line.
- Boot, USB glue, encoder, battery, sleep manager, EEPROM adapter, RGB light, sketches:
  small, and would only add easy members.
- `send` of the Bluetooth transports and its subscriber count: a foreign notify call.
- The mutex of the mailbox and its memory ordering are trusted to exclude; only the small
  steps of its owner touch the slot.
- What arrives on a transport without a mailbox, such as USB, is left open.
- ViaProtocol.Protocol.HandleGetValue: the rows in the matrix-state reply come from the application
  and are left open; that nothing changes and that the first three bytes are echoed is stated.
- Custom handlers are modelled by the contract of `src/VIA_Protocol.h:40-57`, with a reset and a
  validation of their own; what they reply behind the opcode is arbitrary. Not in that contract,
  but assumed: a `set` that refuses changes no state, `get` and `save` change none, `save` writes
  no reply, no handler writes the opcode byte, and reset, validation and agreement depend on
  their argument alone. Runs are of handlers that accept the states they are in
  (`Durability.AllLive`) and have the same bytes at every power-up.
- Storage is one datatype over the three adapters instead of a virtual interface; the flash
  adapter stands alone, because `Protocol` cannot save on it (see above).
- A memory store without a buffer is not modelled.
- FlashStorage.NorFlash.ErasePage: a page erase is atomic; a power cut inside one is not
  modelled, only between any two.
- FlashImage.FlashAtomicity: after a failed write or commit the transaction is restarted
  with an erase or a start-up; further writes or a second commit without one are outside the
  runs.
- InternalFS.InternalFSStorage.Commit: a fault of the medium damages at most four
  neighbouring payload bytes; the generation field is not covered by the file's checksum, so
  header faults are not modelled.
- Durability.DurableState: between an erase that was refused a removal although there was power
  and the next successful save or start-up, what is restored is said by
  `FileImage.EraseRestores` for the erase alone, not for failed saves since.
- Durability.FailedResetDrifts: a failed reset that erased files is described by
  `Durability.CutResetRestores` instead.
- KeyboardRuns.CountsExactRun: speaks of all turns so far together, because releasing the keys of
  a miscounted layer can make its counts exact again.
- KeyboardRuns.RunTurn: matching dimensions, at most 8 rows, 32 columns, 255 positions and 32
  layers; the keymap is an argument of each turn, and `suspended()` is constant within one.
- KeyboardRuns.ToggleParity: counts the presses that the layer pass applies; a key that becomes a
  toggle only through another layer key of its batch is latched and not applied, as in
  `BatchEffects.LayerCanBeMissed`.
- KeyboardRuns.ReportAgreement: speaks of what was handed to `send`; `sendComplete` also
  accepts a report whose `send` returned false.
- Bit masks of rows and layers are sets of bit numbers, and sequence numbers, generations
  and clocks are integers modulo 2^32.
