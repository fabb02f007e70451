# Verification model of the Byzance IODA firmware

A Dafny model of the parts of the firmware that must not go wrong, with proofs.

* **The external flash layer** (`NorFlash`, `Streams`, `Journal`, `ExtMem`). The chip is a byte array with
  two elementary operations: erasing a 4096-byte subsector, and programming one byte, which only clears
  bits. `Chip` logs the operations in order, so a power cut is a prefix of the log. `ExternalMemory.ExtMem`
  mirrors `ExtMem.cpp` step by step; its methods are proved to issue exactly the operation sequences that
  `Journal` describes, and `Journal.SecureWriteAtomic` is the crash theorem about those sequences.
* **The binaries** (`Binaries`, `Plans`, `BinManager`, `MqttCommands`, `Machine`, `FlagSafety`, `FlagLoss`, `Overrun`, `Device`).
  Backup, upload and update work on top of that layer. `Plans` names what they ask of it, act by act; `Machine` is
  the whole system as a function, `After` for one event, `BootSys` for start-up, `LeftBy` and `Lived` for the chip
  that power cuts leave. Every command of the managers is proved to take exactly its step and to ask exactly its
  acts (`Planned`), whatever state it finds, if there is room for it (`Room`: nothing reaches the journal):
  `Device.Perform` for one event, `Device.LiveAnyhow` for a life of such events. From a state that is `Valid`, events in order also keep
  `Weathered(s, t, o, p)`: wherever power fails between the moments `s` and `t`, the flash stands for contents in
  which a backup marked valid is byte for byte what it was copied from (origin `o` or `p`) and no update is
  scheduled from an erased buffer. `Device.Live` and `Device.Lives` let a device live through any such events and
  die at any operation, start-up and the end of an interrupted erasure included, again and again; they leave
  exactly what the machine leaves, and say what a valid backup can be in terms of those events.
  `FlagSafety.FlagLived` is the promise about scheduled updates alone, for events in order or not; `FlagLoss.FlagExactly`
  and `Device.RunOver` say where it ends.
* **The protocols and formats beside it**: `Dali` (finding the lamps on a bus), `NatTable`, `Checksum` and
  `Nat64` (the binding table, the Internet checksum, packet rewriting), `Utf8`, `Json`, `JsonObjects`, `JsonForms`,
  `JsonGrammar`, `JsonRoundTrip` and `PicoJson` (JSON printing and parsing: exactly the texts of a grammar are read, and
  what is printed is one of them), `Messages` (binary messages), `Connectors` (lines with a
  checksum). Each has the source's object with its fields and loops, proved against functions, and a main
  theorem about those functions.

What the code gets wrong is modelled as it is, and the exact condition under which it is right is proved:

* After a power cut during an erasure, `restore_processes` erases 513 subsectors, the last of them the
  first of the backup (BinManager.cpp:579 with 799). `BinaryManager.RestoreKeepsBackup` says exactly when
  the backup survives, `BinaryManager.RestoreLosesBackup` is a flash on which it does not, and the constructor
  `BinaryManager.BinManager.Init` says what is left of it, wherever finishing the erasure is itself cut.
* The checksum of a translated UDP datagram is stored without the byte swap that TCP gets
  (nat64_dri.c:265). `Nat64.TranslatedVerifies`: it verifies exactly if a sum over the incoming datagram and
  its binding is a multiple of 257; `Nat64.UdpFails` is a datagram for which it does not. A checksum of zero is
  sent as it is, although IPv6 receivers take it for none and discard the datagram, so it is accepted exactly if
  that sum is a multiple of 257 but not of 65535: `Nat64.TranslatedAccepted`.
* The length guard of `getByzanceFloat` is inverted (ByzanceParser.cpp:171), so a float that is all there is
  refused: `Messages.Parser.GetFloat`, `Messages.FloatRefused`.
* A lamp with address 0 or 0xFFFFFF, two with the same address, or more than 64 lamps defeat the enumeration:
  `Dali.RankedEnumerates` and `Dali.Master.Init` give the exact condition.
* Nothing limits the declared size of an upload, nor how much data is sent. An erasure stays in the buffer partition
  exactly below 2 MiB (`BinaryManager.ErasureFits`), and copying the buffer over the backup stays off the
  configuration exactly below 4 MiB. If every upload declares less than that, and its data stays below the journal, no
  update is ever scheduled from a buffer that is being, or has been, erased (`FlagSafety.FlagLived`). Both conditions are
  needed:
  * Among lives whose events all have room, the declared size is the exact condition (`FlagLoss.FlagExactly`). From
    4 MiB + 1 on it takes no more than one upload in order: beyond 2 MiB the copy reads what it has written itself
    (`FlagLoss.CopyWraps`), so the first word of the upload becomes the flag on the flash, while RAM goes on holding 0
    and the next `upload/start` sees nothing to lower (`FlagLoss.Loses`). At 4 MiB itself the configuration is left
    blank, which start-up takes for no flag, until data sent beyond the declared size runs over it
    (`FlagLoss.LosesMore`).
  * With one byte declared, data that runs on to the end of the chip publishes a transaction, and recovery replays it:
    the second block of the journal, which no other event touches (`Overrun.SparedOn`), over the configuration
    (`Overrun.TailPublishes`, `Device.RunOver`).
* The texts of an `upload/start` are copied with one byte to spare, so that they end with a NUL, say the comments
  (MQTTCommands.cpp:97-109); but that byte is whatever lay on the stack. A text that fills its field is read back cut to
  what fits exactly if the byte happened to be 0, and otherwise with the byte at its end: `MqttCommands.HoldsText`.
* An alias that is empty, as it is by default, or unreadable makes start-up save the configuration every time
  (Configurator.cpp:113-115): `MqttCommands.UnnamedSaved`.

Two more are latent, and the program as it is never meets them. A clock step near 2^32 would make an idle NAT
binding young again (`NatTable.ClockWraps`), but the one caller passes 1000 (LowpanBR.cpp:189), with which the
counter never wraps (`NatTable.ClockOfProgram`). A failed read of a block of the backup would end a loop "while
`yield` reports something" with an erasure still to do, exactly then (`BinaryManager.YieldEndsEarly`), but
`IntMem::read_data` never reports a failure (IntMem.cpp:56-69).

Where comments and code disagree, the model follows the code: `_backup_prepare` compares two build id arrays
by address (BinManager.cpp:1264), so "already backed up" never happens; `upload/start` compares the stored
description with one whose state is invalid (MQTTCommands.cpp:119-141), so a duplicate of a valid binary is
never recognised; `buffer_prepare` never copies the state, so an erased buffer is erased again;
`trim_crlf` always returns 0.

## Model

| member | source | states |
|---|---|---|
| NorFlash.SpiFlash.Read | _libs_/byzance_drivers/SpiFlash.h:95-104 | a read that stays in its page delivers those bytes of the chip and nothing else changes |
| NorFlash.SpiFlash.Write | _libs_/byzance_drivers/SpiFlash.h:106-116 | a program that stays in its page clears bits, byte after byte in address order |
| NorFlash.SpiFlash.EraseSubsector | _libs_/byzance_drivers/SpiFlash.cpp:149-177 | one atomic operation sets the whole subsector of an address to ones |
| NorFlash.RunProgramCut | _libs_/byzance_drivers/SpiFlash.cpp:100-147 | a program cut after k bytes over erased cells leaves exactly the first k bytes |
| Streams.SubsectorsCover | _libs_/byzance_drivers/ExtMem.cpp:92-98 | the block count formula gives the fewest subsectors that cover the range, and at most two for one subsector of data |
| Streams.JournalCapacity | _libs_/byzance_drivers/ExtMem.cpp:76-98 | a range needs no more than the two blocks the replayer accepts, exactly if it ends within two subsectors of the first one's start |
| Streams.CopyCut | _libs_/byzance_drivers/ExtMem.cpp:579-597 | copying whole subsectors, cut anywhere, touches only the destination |
| Streams.CopyDone | _libs_/byzance_drivers/ExtMem.cpp:579-597 | copying whole subsectors puts exactly the source bytes at the destination, skipped blank pages included |
| ExternalMemory.WriteIsUpdate | _libs_/byzance_drivers/ExtMem.cpp:181-326 | the operations of an erasing write, for every address and size, amount to a plain update of the range and leave every other byte |
| ExternalMemory.PageRounds | _libs_/byzance_drivers/ExtMem.cpp:354-379 | the rounds of a page loop are contiguous, stay in their pages, and end exactly at the end of the range |
| ExternalMemory.SubsectorRounds | _libs_/byzance_drivers/ExtMem.cpp:216-252 | the same for the rounds over subsectors |
| ExternalMemory.ExtMem.Init | _libs_/byzance_drivers/ExtMem.cpp:17-70 | start-up carries out exactly the recovery operations for the record it finds |
| ExternalMemory.ExtMem.WriteData | _libs_/byzance_drivers/ExtMem.cpp:181-326 | with erasing, the range holds the data and nothing else changes; without, the range is and-ed; each access stays in a page; the exact operations |
| ExternalMemory.ExtMem.ReadData | _libs_/byzance_drivers/ExtMem.cpp:328-383 | exactly the range is transferred, in order, every device read staying within a page |
| ExternalMemory.ExtMem.IsErased | _libs_/byzance_drivers/ExtMem.cpp:291-310 | a page is skipped only if it is all ones |
| ExternalMemory.ExtMem.EraseSubsectors | _libs_/byzance_drivers/ExtMem.cpp:397-411 | exactly the named subsectors become blank |
| ExternalMemory.ExtMem.EmptyJournal | _libs_/byzance_drivers/ExtMem.cpp:607-621 | the index record is overwritten with ones |
| ExternalMemory.ExtMem.HandleJournal | _libs_/byzance_drivers/ExtMem.cpp:544-605 | result codes for blank, oversized, out-of-range and valid records, and the exact operations of each |
| ExternalMemory.ExtMem.SecureWrite | _libs_/byzance_drivers/ExtMem.cpp:72-179 | refuses more than a subsector, otherwise carries out exactly stage, publish, replay, empty; the scratch buffer is never overwritten before it is programmed |
| Journal.RecordRoundTrip | _libs_/byzance_drivers/ExtMem.cpp:106-109 | a record is read back from its eight bytes |
| Journal.TornRejected | _libs_/byzance_drivers/ExtMem.cpp:544-573 | no proper prefix of a record over erased flash is ever accepted for replay |
| Journal.WriteRecord | _libs_/byzance_drivers/ExtMem.cpp:92-109 | the record of a secure write is one the replayer accepts, aligned, and covers the range |
| Journal.RecoverClean | _libs_/byzance_drivers/ExtMem.cpp:544-573 | a record that is not accepted is never replayed, wherever recovery is cut |
| Journal.RecoverCommitted | _libs_/byzance_drivers/ExtMem.cpp:575-605 | recovery of an accepted record, cut anywhere, stays replayable or is done |
| Journal.RecoverKeeps | _libs_/byzance_drivers/ExtMem.cpp:49-67 | recovery cut anywhere keeps what the chip stands for, and completed leaves it plain |
| Journal.SecureWriteCut | _libs_/byzance_drivers/ExtMem.cpp:72-179 | a secure write cut before its last record byte stands for the old contents, from there on for the new |
| Journal.SecureWriteAtomic | _libs_/byzance_drivers/ExtMem.cpp:72-179 | crash atomicity: cut anywhere, then any number of cut recoveries, ends below the index with exactly the old contents or exactly the range replaced, and which of the two |
| Journal.SecureIsAtomic | _libs_/byzance_drivers/ExtMem.cpp:72-179 | a completed secure write is a plain update and every cut of it stands for old or new contents |
| Journal.WriteIsWithin | _libs_/byzance_drivers/ExtMem.cpp:181-326 | plain writing below the index, cut anywhere, can have changed only its range |
| Plans.PlanDone | _libs_/byzance_drivers/ExtMem.cpp:72-411 | a series of acts leaves exactly the flash it describes |
| Plans.ActCut | _libs_/byzance_drivers/ExtMem.cpp:72-411 | an act cut anywhere is all or nothing if it is a secure write, and stays in its range otherwise |
| Plans.PlanCut | _libs_/byzance_drivers/ExtMem.cpp:72-411 | a series of acts cut anywhere has carried out some of them, and part of one more |
| Binaries.SavingGood | _libs_/byzance_drivers/BinManager.cpp:1399-1424 | which descriptions can be saved without breaking durability of the backup or safety of the flag |
| Binaries.GoodElsewhere | _libs_/byzance_drivers/BinManager.cpp:808-833 | changing the buffer, or the backup while it is not valid, breaks neither promise |
| Binaries.AtomicWeathers | _libs_/byzance_drivers/BinManager.cpp:1399-1424 | an atomic save between two good states is good wherever it is cut |
| BinaryManager.BinManager.Init | _libs_/byzance_drivers/BinManager.cpp:36-190 | start-up loads the four descriptions, repairs them and finishes an erasure, in exactly these acts, to exactly this state; all invariants hold afterwards and both promises at every cut, with the first subsector of the backup blank if there was an erasure to finish |
| BinaryManager.BinManager.FixComponent | _libs_/byzance_drivers/BinManager.cpp:104-141 | 1 exactly if forced, or every byte is ones or zeros, or the state is impossible; then the repaired description is in RAM and saved in one step |
| BinaryManager.RepairedIs | _libs_/byzance_drivers/StructRoutines.cpp:46-56 | a blank description, or any if forced, gets no size, checksum or time, empty texts and the invalid state; of any other only an impossible state is changed |
| BinaryManager.BinManager.RestoreProcesses | _libs_/byzance_drivers/BinManager.cpp:537-595 | an interrupted erasure is repeated over 513 subsectors and ends erased, otherwise nothing happens; at every cut both promises hold, for the backup as it was or without its first subsector |
| BinaryManager.WipeWeathers | _libs_/byzance_drivers/BinManager.cpp:579-584 | each erasure of the restoration keeps both promises at every cut, the last one for what it leaves of the backup |
| BinaryManager.BlankedGood | _libs_/byzance_drivers/BinManager.cpp:579-584 | losing the first subsector of the backup keeps both promises for what is left of its origin |
| BinaryManager.RestoreKeepsBackup | _libs_/byzance_drivers/BinManager.cpp:574-586 | the backup stays durable exactly if no erasure was under way, no backup was valid, or its first subsector was blank |
| BinaryManager.RestoreLosesBackup | _libs_/byzance_drivers/BinManager.cpp:574-586 | a flash with a valid backup that finishing an erasure destroys |
| BinaryManager.ErasureFits | _libs_/byzance_drivers/BinManager.cpp:789-806 | the counter covers the declared size, stays in the partition exactly if the size is below 2 MiB, and off the configuration exactly if below 6 MiB |
| BinaryManager.BinManager.SaveBinary | _libs_/byzance_drivers/BinManager.cpp:1399-1424 | the description replaces the stored one atomically, nothing else changes |
| BinaryManager.BinManager.SetState | _libs_/byzance_drivers/BinManager.cpp:478-517 | the new state is in RAM and, if it is a change, on the flash, atomically |
| BinaryManager.BinManager.BackupPrepare | _libs_/byzance_drivers/BinManager.cpp:1228-1280 | the block count or -2, and INVALID persisted before anything destructive; invariants kept at every cut |
| BinaryManager.BinManager.BackupStart | _libs_/byzance_drivers/BinManager.cpp:666-737 | busy exactly if a backup or an upload is under way; skipped exactly if, idle, the firmware is valid and so is the backup, with the same build id if that is checked; started exactly for any other valid firmware that fits or has no size; the firmware's description keeps all but its size; exactly the acts, invariants kept at every cut |
| BinaryManager.StartsWhen | _libs_/byzance_drivers/BinManager.cpp:666-737 | the same for the specification, with the counters: a start marks the backup invalid and busy and begins at block 0 |
| BinaryManager.BinManager.Autobackup | bootloaders/bootloader_ioda/main.cpp:551-565 | what the bootloader does before flashing: without faults, from any state with nothing busy, a valid firmware that fits ends with a valid backup of its build id on the flash, and if it was started, with its description and its image |
| BinaryManager.BinManager.BackupStop | _libs_/byzance_drivers/BinManager.cpp:739-749 | the backup is invalid and idle, in RAM and on the flash |
| BinaryManager.BinManager.BackupFunction | _libs_/byzance_drivers/BinManager.cpp:1282-1356 | one step copies one block, gives up on a fault, or publishes, whatever the state of the backup; the published backup's origin is the firmware's description and image |
| BinaryManager.WholeBackup | _libs_/byzance_drivers/BinManager.cpp:1282-1356 | when all blocks are copied, the backup partition holds the firmware image of the declared size |
| BinaryManager.BinManager.EraseFunction | _libs_/byzance_drivers/BinManager.cpp:1358-1397 | one step erases one subsector or persists ERASED; safe at every cut |
| BinaryManager.BinManager.Yield | _libs_/byzance_drivers/BinManager.cpp:519-535 | one round does a backup step and an erase step, with the summed code, in any state; invariants kept at every cut |
| BinaryManager.BackupYields | _libs_/byzance_drivers/BinManager.cpp:1282-1356 | while a backup is properly under way, a step splices in exactly the next block of the firmware, or gives up with the flash as it was, or saves the firmware's description as the backup's |
| BinaryManager.EraseYields | _libs_/byzance_drivers/BinManager.cpp:1358-1397 | a step of an erasure makes exactly the next subsector blank, or saves the description as erased |
| BinaryManager.YieldWorks | _libs_/byzance_drivers/BinManager.cpp:519-535 | a round that reports anything, failures included, leaves less work; one that reports 0 without a fault leaves none |
| BinaryManager.YieldEndsEarly | _libs_/byzance_drivers/BinManager.cpp:519-535 | a round reports 0 with an erasure still to do exactly if it is to copy a block of the backup and reading that block fails |
| BinaryManager.YieldAdvances | _libs_/byzance_drivers/BinManager.cpp:519-535 | between rounds exactly the subsectors so far are blank, the blocks so far copied and the two descriptions as in RAM, with every other byte as it was, for both jobs together |
| BinaryManager.BinManager.YieldWhileBusy | _libs_/byzance_drivers/BinManager.cpp:581-584 | the loop ends; without faults the erasure is done and the backup published, and the flash is exactly that outcome, every other byte unchanged |
| BinaryManager.BinManager.CopyBinary | _libs_/byzance_drivers/BinManager.cpp:1426-1488 | the description is copied, with its state saved or left invalid |
| BinaryManager.BinManager.BufferErase | _libs_/byzance_drivers/BinManager.cpp:789-806 | ERASING is persisted with the counters set |
| BinaryManager.BinManager.BufferPrepare | _libs_/byzance_drivers/BinManager.cpp:765-787 | the new description is in place and its erasure begins, for any size; both promises kept if the flag is down, and all invariants if the size fits |
| BinaryManager.BinManager.WriteBinPart | _libs_/byzance_drivers/BinManager.cpp:808-833 | the data is and-ed in right after what was written so far, anywhere on the chip, in exactly these operations, even during an erasure or past the partition; safe at every cut where it stays in the partition after the erasure |
| BinaryManager.BinManager.UploadStop | _libs_/byzance_drivers/BinManager.cpp:1536-1553 | the buffer becomes valid, or invalid if forced, in RAM and on the flash |
| BinaryManager.BinManager.UpdateBackup | _libs_/byzance_drivers/BinManager.cpp:835-989 | exactly the acts, for sizes beyond the partition too; below 2 MiB the backup is the buffer, byte for byte, published last, and at every cut it is invalid or a copy of its old or new origin |
| BinaryManager.UpdatePublishes | _libs_/byzance_drivers/BinManager.cpp:835-989 | the description saved last makes the copied image a durable backup |
| MqttCommands.Configurator.Init | _libs_/byzance_drivers/Configurator.cpp:13-36 | start-up loads the configuration and corrects it; it is saved, atomically, exactly if it is blank or something was to be corrected |
| MqttCommands.Configurator.SetDefaults | _libs_/byzance_drivers/Configurator.cpp:38-168 | a blank configuration, or any if forced, becomes the defaults; otherwise each field never written gets its own; 1 exactly if it was saved |
| MqttCommands.CorrectedIs | _libs_/byzance_drivers/Configurator.cpp:38-168 | field by field: each of the fifteen keeps its value, or gets its default if never written, the alias is left alone, and something is to be saved exactly if a field was never written or the alias is no name |
| MqttCommands.DefaultsAre | _libs_/byzance_drivers/StructRoutines.cpp:68-85 | the default of each of the fifteen fields; of the alias only the first byte is cleared |
| MqttCommands.Configurator.IsNamed | _libs_/byzance_drivers/Configurator.cpp:94-115 | the scan of the alias finds exactly whether it is made of printable characters, at least one, and a NUL |
| MqttCommands.ConfiguredFlag | _libs_/byzance_drivers/Configurator.cpp:38-168 | the flag survives start-up, unless it was never written or the configuration is blank, and then it is 0 |
| MqttCommands.UnnamedSaved | _libs_/byzance_drivers/Configurator.cpp:94-160 | an alias that is empty or unreadable is never corrected and saved every time, and the defaults leave it empty |
| MqttCommands.ConfiguringGood | _libs_/byzance_drivers/Configurator.cpp:13-36 | saving what start-up makes of the configuration keeps both promises |
| MqttCommands.Configurator.SetFlashflag | _libs_/byzance_drivers/Configurator.cpp:396-423 | the first word of the configuration becomes the flag and every other byte stays, in RAM and on the flash, saved atomically if that is a change |
| Machine.ConfigurationKept | _libs_/byzance_drivers/Configurator.cpp:396-423 | over start-up and any events, of the configuration that start-up made only the first word ever changes |
| MqttCommands.Configurator.SaveConfig | _libs_/byzance_drivers/Configurator.cpp:860-869 | the configuration is saved atomically |
| MqttCommands.FlagGood | _libs_/byzance_drivers/Configurator.cpp:396-423 | lowering the flag is always safe, raising it while the buffer is neither erasing nor erased |
| MqttCommands.FlagInRam | _libs_/byzance/MQTTCommands.cpp:145-168 | in RAM and on the flash, a buffer being erased or erased means the flag is 0 |
| MqttCommands.Commands.BufferCheck | _libs_/byzance_drivers/BinManager.cpp:751-763 | zero exactly if all bytes of the descriptions agree |
| MqttCommands.Commands.UploadStart | _libs_/byzance/MQTTCommands.cpp:62-185 | every refusal and exactly when it occurs; otherwise the flag is down with the rest of the configuration as it was, the buffer's description says field by field what the request says and is marked as being erased, and the assembly is empty; exactly its step, for any declared size; safe at every cut, and invariants kept if the size fits |
| MqttCommands.DescribedSays | _libs_/byzance/MQTTCommands.cpp:87-111 | the description built from a request says, at its place in the struct, the size, the checksum, the build id, the version, and the time and user texts if given, zero or empty if not; it is invalid |
| MqttCommands.HoldsText | _libs_/byzance/MQTTCommands.cpp:97-109 | a text shorter than its field is read back whole; one that fills it is cut to what fits if the last byte happens to be 0, and otherwise followed by that byte |
| MqttCommands.Commands.UploadData | _libs_/byzance/MQTTCommands.cpp:216-327 | every refusal and when it occurs, parts of more than 1024 bytes included; an accepted part is stored, in exactly these operations, wherever on the chip, and goes into the checksum; below the journal exactly its step, even during an erasure or beyond the declared size; a part that is expected extends the assembly and keeps the invariants at every cut |
| MqttCommands.Commands.Store | _libs_/byzance/MQTTCommands.cpp:298-321 | the buffer is marked invalid, saved if that is a change, and the part is programmed behind the others |
| MqttCommands.Commands.Checksum | _libs_/byzance/MQTTCommands.cpp:260-310 | the loop folds the bytes by exclusive or |
| MqttCommands.PartAssembled | _libs_/byzance/MQTTCommands.cpp:305-321 | a part written over blank cells extends the assembled bytes and their checksum, the rest stays blank |
| MqttCommands.YieldAssembles | _libs_/byzance_drivers/BinManager.cpp:1358-1397 | background work keeps the assembly; a finished erasure leaves the whole declared size blank |
| MqttCommands.Commands.Append | _libs_/byzance/MQTTCommands.cpp:305-321 | the part goes into the checksum and to the end of what was written; the assembly stays right |
| MqttCommands.WholeAssembly | _libs_/byzance/MQTTCommands.cpp:187-327 | after the erasure the buffer is the accepted bytes and then ones, up to the declared size |
| MqttCommands.AssembledMore | _libs_/byzance/MQTTCommands.cpp:266-322 | one more message extends the assembled bytes exactly if it is complete, undamaged and next |
| MqttCommands.Commands.UploadEnd | _libs_/byzance/MQTTCommands.cpp:187-214 | valid exactly if the checksums agree, invalid otherwise; exactly its step |
| MqttCommands.Commands.Stop | _libs_/byzance_drivers/BinManager.cpp:1536-1553 | the end of an upload is exactly its step and keeps every invariant, and the assembly unless the erasure was unfinished |
| MqttCommands.Commands.UpdateStart | _libs_/byzance/MQTTCommands.cpp:329-488 | every refusal and exactly when it occurs; exactly its step; what is put to use is exactly the assembled upload with the declared checksum; the firmware update raises the flag and changes nothing else of the configuration, the backup update leaves a valid backup of it; safe at every cut |
| MqttCommands.Commands.DisableFlag | _libs_/byzance/MQTTCommands.cpp:145-163 | the flag is down before the erasure begins, the rest of the configuration as it was |
| Device.DeliverAll | _libs_/byzance/MQTTCommands.cpp:216-327 | after any series of parts the accepted bytes are exactly the acceptable ones in order |
| Device.UploadSession | _libs_/byzance/MQTTCommands.cpp:62-327 | a whole upload is valid exactly if the assembled bytes have the declared checksum, and the buffer then holds them, blank up to the declared size, with a description, in RAM and on the flash, that says what the request says |
| Device.FinishErasing | _libs_/byzance_drivers/BinManager.cpp:519-535 | repeated yielding ends with the buffer erased and no backup under way |
| Device.TrackingUpload | _libs_/byzance/MQTTCommands.cpp:62-327 | the buffer of an upload with the right checksum is the upload that the events since its start make up |
| Device.Perform | _libs_/byzance/MQTTCommands.cpp:62-488 | any one event that there is room for, in order or not, is exactly its step on RAM, flash, configuration and counters, and exactly its acts on the chip; one in order keeps all invariants, at every cut, and a backup it publishes is the firmware as described or the upload in progress |
| Device.Boot | bootloaders/bootloader_ioda/main.cpp:325-341 | recovery, then the configuration, then the binaries: start-up from any flash is exactly the start-up of the machine; from a good one, with an erasure to finish or not, both promises hold at every cut |
| Device.Live | _libs_/byzance_drivers/BinManager.cpp:478-989 | a life in order leaves exactly the chip that the machine leaves k operations into its last event; it stands for a safe flag and for a valid backup that is byte for byte what it was, or, if the life began with an erasure cut short, that without its first subsector, or the firmware of the declared size with its description when published, or the assembled parts of an upload among the events with its checksum and description and ones up to the declared size |
| Device.Lives | _libs_/byzance_drivers/BinManager.cpp:478-989 | the same over any number of lives, each cut anywhere; the first subsector of a backup is lost only if a later life begins with an erasure cut short |
| Device.NothingLost | _libs_/byzance_drivers/BinManager.cpp:537-595 | with no power cut during an erasure a valid backup is, over any lives, whole: what it was, or what one of them made |
| Device.LiveAnyhow | _libs_/byzance/MQTTCommands.cpp:62-488 | a life of any events that there is room for, in order or not, from any flash, leaves exactly the chip that the machine leaves, and the device in its state |
| Device.LivesAnyhow | _libs_/byzance/MQTTCommands.cpp:62-488 | any lives of such events, each cut anywhere, leave exactly what the machine leaves, and a safe flag if every upload declares less than 4 MiB |
| Device.RunOver | _libs_/byzance/MQTTCommands.cpp:216-327 | one byte is declared and 8 MiB are sent in parts of 1024 bytes: from any flash whose second journal block is blank this leaves an update scheduled from a buffer that is being erased |
| Machine.Together | _libs_/byzance_drivers/BinManager.cpp:478-989 | the state of the machine and its chip agree after any events, with no transaction waiting |
| Machine.StepBounded | _libs_/byzance_drivers/BinManager.cpp:666-737 | over every event a backup under way stays within the firmware |
| FlagSafety.StepKeeps | _libs_/byzance/MQTTCommands.cpp:62-488 | every act of every event whose erasure and copy stay off the configuration keeps the flag safe, data that runs over the configuration included |
| FlagSafety.BurnActs | _libs_/byzance_drivers/BinManager.cpp:808-833 | programming over the configuration cannot raise a lowered flag, nor give an invalid buffer another state |
| FlagSafety.ModestConfines | _libs_/byzance_drivers/BinManager.cpp:789-989 | while declared sizes are below 4 MiB, every erasure and copy stays off the configuration, and every event but data has room |
| FlagSafety.ModestStep | _libs_/byzance/MQTTCommands.cpp:62-488 | every event that declares less than 4 MiB, if anything, keeps it so |
| FlagSafety.BootKeeps | bootloaders/bootloader_ioda/main.cpp:325-341 | so does every act of start-up, the correction of the configuration and an erasure to be finished included |
| FlagSafety.FlagAfter | _libs_/byzance/MQTTCommands.cpp:145-176 | in RAM and on the flash, after start-up and any events that declare less than 4 MiB and have room, a buffer being erased or erased means the flag is 0, and only data can be without room next |
| FlagSafety.RoomForData | _libs_/byzance/MQTTCommands.cpp:216-327 | for events that declare less than 4 MiB there is room exactly if there is for the data among them |
| FlagSafety.FlagLeft | _libs_/byzance/MQTTCommands.cpp:62-488 | and so it does in the chip that power failing anywhere in start-up or such an event leaves |
| FlagSafety.FlagLived | _libs_/byzance/MQTTCommands.cpp:62-488 | over any number of lives with any events that declare less than 4 MiB and have room, in order or not, each cut anywhere, no update is ever scheduled from a buffer being erased or erased |
| FlagLoss.CopyWraps | _libs_/byzance_drivers/BinManager.cpp:915-945 | copying any number of pages, beyond 2 MiB too, leaves at every address what the start of the buffer, repeated, has there |
| FlagLoss.UpdateFlag | _libs_/byzance_drivers/BinManager.cpp:835-989 | an update of 4 MiB leaves the flag unwritten, a larger one the first word of the upload |
| FlagLoss.Loses | _libs_/byzance/MQTTCommands.cpp:62-488 | for every declared size from 4 MiB on whose update stays below the journal, one upload in order, its update and the next upload/start leave a flag nobody set on the flash while the buffer is being erased; above 4 MiB start-up then schedules the update |
| FlagLoss.LosesMore | _libs_/byzance/MQTTCommands.cpp:62-488 | at 4 MiB, the parts of the next upload raise the flag likewise once they reach the configuration |
| FlagLoss.FlagExactly | _libs_/byzance/MQTTCommands.cpp:62-488 | over all lives that declare less than n bytes and whose events have room, the promise holds exactly if n is at most 4 MiB, for the flag on the flash as for what start-up makes of it |
| Overrun.SaveTouches | _libs_/byzance_drivers/ExtMem.cpp:72-179 | a secure write within one subsector touches one block of the journal |
| Overrun.SaveEmpties | _libs_/byzance_drivers/ExtMem.cpp:544-605 | a completed secure write leaves the index blank |
| Overrun.SparedOn | _libs_/byzance_drivers/ExtMem.cpp:72-179 | over start-up and any events the second block of the journal stays blank |
| Overrun.BeforeRuns | _libs_/byzance/MQTTCommands.cpp:216-327 | one byte declared, 8180 parts of 1024 bytes sent: all have room, the data has reached the journal, the index and the second block are blank |
| Overrun.TailPublishes | _libs_/byzance_drivers/ExtMem.cpp:544-605 | what 12 parts more program publishes a transaction whose replay schedules an update from a buffer being erased, with nothing below the index changed |
| Dali.Bus.Send | _libs_/libraries/Dali.h:34-49 | what lamps do on each command the master sends |
| Dali.SplitAdd | _libs_/libraries/Dali.h:313-318 | the three bytes recombine to the address |
| Dali.Combined | _libs_/libraries/Dali.h:83-90 | sending the three bytes one by one sets the search address |
| Dali.Master.Search | _libs_/libraries/Dali.h:83-90 | the lamps search for exactly the given address |
| Dali.Master.Halve | _libs_/libraries/Dali.h:79-109 | halving ends at the least address still to be found, unless that is the top |
| Dali.Master.Assign | _libs_/libraries/Dali.h:114-128 | exactly the lamps with that address get the short address and are withdrawn, by exactly these seven commands |
| Dali.FoundMore | _libs_/libraries/Dali.h:112-137 | the least address not yet found has as rank the number found so far |
| Dali.Master.Init | _libs_/libraries/Dali.h:51-147 | the search ends; without address 0 the 65 lowest are withdrawn and the first 64 numbered by rank; all lamps get ascending addresses of their own exactly if they are at most 64, distinct and in 1..0xFFFFFE; it begins with reset, off, initialise and randomise, and ends with terminate and off, the lamps no longer listening |
| Dali.RankedEnumerates | _libs_/libraries/Dali.h:51-147 | numbering by rank gives every lamp its own ascending address exactly if the lamps are enumerable |
| Dali.NeverFound | _libs_/libraries/Dali.h:79-138 | a lamp with address 0 keeps the enumeration from succeeding |
| NatTable.Table.Init | _libs_/byzance/nat64_dri.c:29-33 | rows are free and row i has pseudoport base + i |
| NatTable.Table.Del | _libs_/byzance/nat64_dri.c:35-39 | exactly the named row is freed |
| NatTable.Table.Feed | _libs_/byzance/nat64_dri.c:41-58 | every row in use ages, and is freed if it exceeds the timeout |
| NatTable.Table.Add | _libs_/byzance/nat64_dri.c:60-76 | the first free row is taken, known conversation or not, or 0 is returned and nothing changes; a new conversation keeps the table sound |
| NatTable.Table.FindOrAdd | _libs_/byzance/nat64_dri.c:78-92 | a known conversation keeps its port and is refreshed if uses count, a new one takes the first free row |
| NatTable.Table.Find | _libs_/byzance/nat64_dri.c:94-107 | the row a reply belongs to, refreshed if uses count |
| NatTable.OutboundIs | _libs_/byzance/nat64_dri.c:60-92 | an outgoing packet gets the port of its conversation's row, or of the first free row, filled with exactly that conversation, or 0 if there is neither |
| NatTable.InboundIs | _libs_/byzance/nat64_dri.c:94-107 | an incoming packet belongs to row i exactly if that is in use, its pseudoport is base + i, and its peer is the sender; only its age changes, if uses count |
| NatTable.StepSound | _libs_/byzance/nat64_dri.c:35-107 | rows in use stay pairwise distinct, with fixed pseudoports and within the timeout, over every operation |
| NatTable.StepsBind | _libs_/byzance/nat64_dri.c:35-179 | while it is not ended a binding stays in its row with its exact age, over every run |
| NatTable.BindingStable | _libs_/byzance/nat64_dri.c:60-179 | the pseudoport of an outbound packet leads replies back to the same device and port, and is handed out again, over every run until the binding ends |
| NatTable.BindingEnds | _libs_/byzance/nat64_dri.c:35-58 | the event that ends a binding ends it at once |
| NatTable.LastsWhileAlive | _libs_/byzance/nat64_dri.c:41-107 | a binding lasts exactly while it is not deleted and not idle beyond the timeout, since last use for TCP, since creation for UDP |
| NatTable.ClockWraps | _libs_/byzance/nat64_dri.c:41-58 | one clock step ends a binding exactly if the 32-bit sum exceeds the timeout; wrapping makes it young |
| NatTable.ClockOfProgram | _libs_/byzance/LowpanBR.cpp:188-189 | with the clock steps of the program the counter never wraps |
| Checksum.FoldIs | _libs_/byzance/nat64_dri.c:258-276 | two-stage folding keeps the sum modulo 2^16 - 1 and is zero only for zero |
| Checksum.NetworkSum | _libs_/byzance/nat64_dri.c:246-271 | the byte-swapped machine sum is the sum in network order |
| Checksum.ChksumOfSum | _libs_/byzance/nat64_dri.c:263-275 | folding a 32-bit sum through the checksum of its bytes keeps it |
| Nat64.TcpVerifies | _libs_/byzance/nat64_dri.c:243-277 | with the field in network order every segment verifies over its pseudo-header (RFC 1071 section 1, RFC 8200 section 8.1) |
| Nat64.UdpVerifies | _libs_/byzance/nat64_dri.c:243-265 | with the field unswapped a datagram verifies exactly if the sum the checksum is taken of is a multiple of 257 |
| Nat64.TranslatedVerifies | _libs_/byzance/nat64_dri.c:219-277 | a translated TCP packet verifies as its receiver sees it, a UDP one exactly if a sum over the incoming datagram and its binding is a multiple of 257 |
| Nat64.TranslatedAccepted | _libs_/byzance/nat64_dri.c:219-277 | with a UDP checksum of zero counted as none (RFC 8200 section 8.1), a UDP datagram is accepted exactly if that sum is a multiple of 257 but not of 65535, for which the field is zero |
| Nat64.ZeroField | _libs_/byzance/nat64_dri.c:258-276 | the checksum field is zero exactly if the sum it is taken of is a multiple of 2^16 - 1 |
| Nat64.DatagramSummed | _libs_/byzance/nat64_dri.c:243-265 | the checksum is taken of that sum and of the prefix, which is itself a multiple of 257 |
| Nat64.UdpFails | _libs_/byzance/nat64_dri.c:254-265 | an ordinary datagram whose translation does not verify |
| Nat64.TranslatedContent | _libs_/byzance/nat64_dri.c:219-239 | version 6, no class or label, true length, protocol, hop limit one less; apart from the checksum the device gets what was sent, from the prefixed peer to the inner address and port |
| Nat64.Translator.Input | _libs_/byzance/nat64_dri.c:201-284 | which packets are translated, what the tables become, and that the buffer holds, behind the tunnel's mark, exactly the translation, a version 6 packet that brings to the device what was sent |
| Nat64.Translator.Convert | _libs_/byzance/nat64_dri.c:290-329 | every refusal; otherwise exactly the source port is replaced, and the destination, the hop limit less one (modulo 256) and the protocol are those of the packet |
| Nat64.Translator.Feed | _libs_/byzance/nat64_dri.c:41-58 | time passes in both tables |
| Nat64.ReplyReturns | _libs_/byzance/nat64_dri.c:201-329 | a reply to a translated packet reaches the device and port the packet came from, whatever happened while the binding lasted |
| Utf8.EncodeDecodes | _libs_/byzance/picojson.h:753-769 | what the parser writes for a code point is its one encoding by the table of RFC 3629 |
| JsonGrammar.EscapeMeans | _libs_/byzance/picojson.h:710-771 | an escape is accepted exactly if it is a unit that is no surrogate or a whole pair, and gives the UTF-8 of the denoted code point (RFC 8259 section 7) |
| JsonForms.HexDigits | _libs_/byzance/picojson.h:710-729 | the sixteen digits, printed in lower case and read in either |
| JsonForms.Escapes | _libs_/byzance/picojson.h:508-534 | which characters are printed escaped, and how, as section 7 of RFC 8259 has it |
| JsonForms.Unescapes | _libs_/byzance/picojson.h:784-796 | which letters may follow a backslash, and what they stand for |
| JsonForms.SimpleForms | _libs_/byzance/picojson.h:558-598 | the texts of null, booleans, numbers, strings, and the empty array and object |
| JsonForms.CompactForms | _libs_/byzance/picojson.h:600-633 | arrays and objects on one line, without any space |
| JsonForms.IndentedForms | _libs_/byzance/picojson.h:600-633 | the same with each item or member on a line of its own, two spaces deeper, and a final line break for a whole text only |
| JsonForms.Blanks | _libs_/byzance/picojson.h:681-689 | white space is blank, tab, line feed and carriage return |
| JsonForms.NumberCharacters | _libs_/byzance/picojson.h:850-869 | the characters collected for a number |
| JsonForms.NumeralIs | _libs_/byzance/picojson.h:850-909 | a number is read that is an optional sign, digits, an optional fraction and an optional exponent, with a digit before the exponent, exactly |
| JsonObjects.LessIs | _libs_/byzance/picojson.h:135 | keys are ordered by their first difference, a prefix first |
| JsonObjects.InsertIs | _libs_/byzance/picojson.h:1011-1016 | entering a member gives its key that value, leaves every other key its own, and keeps the keys in order |
| JsonObjects.MembersAre | _libs_/byzance/picojson.h:830-848 | the object that is read has its keys in order, each with the value that the text gives it last |
| JsonObjects.ValueTidy | _libs_/byzance/picojson.h:871-925 | so has every object inside of what is read, at any depth |
| JsonGrammar.StringReads | _libs_/byzance/picojson.h:773-810 | the characters before a quote are read as the string they stand for |
| JsonGrammar.StringTaken | _libs_/byzance/picojson.h:773-810 | and whatever is read as a string is such characters and their quote |
| JsonGrammar.ValueReads | _libs_/byzance/picojson.h:871-925 | every text of the grammar of values, white space included, is read, up to its end, with its meaning |
| JsonGrammar.ValueTree | _libs_/byzance/picojson.h:871-925 | whatever is read is a text of the grammar with that meaning |
| JsonGrammar.ReadExactly | _libs_/byzance/picojson.h:871-925 | a text is read with a value and a rest exactly if it is white space, that value as the grammar writes it, and that rest |
| JsonRoundTrip.EscapedRead | _libs_/byzance/picojson.h:508-534 | a printed character, whatever it is, is read as itself |
| JsonRoundTrip.StringRead | _libs_/byzance/picojson.h:536-541 | any byte string, printed, is again a string of the grammar and stands for those bytes |
| JsonRoundTrip.NumberTextRead | _libs_/byzance/picojson.h:850-909 | any integer below 2^53 in magnitude survives printing and reading |
| JsonRoundTrip.InsertAbove | _libs_/byzance/picojson.h:1011-1016 | members arrive in key order at the end of the object |
| JsonRoundTrip.TreePrinted | _libs_/byzance/picojson.h:558-633 | what is printed, at any indentation, is a text of the grammar that means the value |
| JsonRoundTrip.ValueRead | _libs_/byzance/picojson.h:558-633 | any printed value at any indentation is read back, and reading stops right after it |
| JsonRoundTrip.RoundTrip | _libs_/byzance/picojson.h:558-633 | every value of null, booleans, strings, arrays, objects and exact integers survives, compact or indented; only the final line break of the latter is left |
| PicoJson.Input.Getc | _libs_/byzance/picojson.h:653-666 | the next character or -1, with one character of push-back |
| PicoJson.Input.Cur | _libs_/byzance/picojson.h:670-677 | the position of the first character not consumed |
| PicoJson.Input.SkipWs | _libs_/byzance/picojson.h:681-689 | exactly the white space is skipped |
| PicoJson.Input.Expect | _libs_/byzance/picojson.h:690-697 | the character is taken if it comes after white space, otherwise only the white space is |
| PicoJson.Input.Match | _libs_/byzance/picojson.h:698-707 | true exactly if the pattern comes next, and then it is taken |
| PicoJson.Input.ParseQuadhex | _libs_/byzance/picojson.h:710-729 | the value of four hexadecimal digits or -1 |
| PicoJson.Input.ParseCodepoint | _libs_/byzance/picojson.h:731-771 | agrees with the grammar of escapes |
| PicoJson.Input.ParseString | _libs_/byzance/picojson.h:773-810 | agrees with the grammar of strings |
| PicoJson.Input.ParseNumber | _libs_/byzance/picojson.h:850-869 | collects exactly the characters of a number |
| PicoJson.Input.ParseArray | _libs_/byzance/picojson.h:812-828 | the loop agrees with the grammar of arrays |
| PicoJson.Input.ParseObject | _libs_/byzance/picojson.h:830-848 | the loop agrees with the grammar of objects; the members are in order, and each key has the value that the text gives it last |
| PicoJson.Input.Parse | _libs_/byzance/picojson.h:871-925 | succeeds exactly on what the grammar accepts, with its value and rest; every object in it is in order |
| PicoJson.ParseText | _libs_/byzance/picojson.h:1076-1099 | succeeds exactly if the text begins with a value of the grammar, which is the result, and the end is where that ends |
| PicoJson.SerializeStr | _libs_/byzance/picojson.h:536-541 | the loop prints the quoted, escaped text |
| PicoJson.Serialize | _libs_/byzance/picojson.h:558-633 | the loops print the text of the value at the given indentation, whose forms JsonForms spells out |
| PicoJson.PrintAndRead | _libs_/byzance/picojson.h:558-1099 | printer and parser, as they are, undo each other on every plain value |
| Messages.OrNibble | _libs_/byzance/ByzanceSerializer.cpp:183-190 | setting bits in one half of a byte leaves the other half alone |
| Messages.Serializer.WriteType | _libs_/byzance/ByzanceSerializer.cpp:183-190 | a type lands in the half byte of its position and nowhere else |
| Messages.Serializer.ReverseCopy | _libs_/byzance/ByzanceSerializer.cpp:176-181 | the bytes land in reverse order, nothing before them changes |
| Messages.Serializer.AddInt | _libs_/byzance/ByzanceSerializer.cpp:44-63 | fails exactly if there is no room; otherwise adds the type and the four bytes |
| Messages.Serializer.AddBool | _libs_/byzance/ByzanceSerializer.cpp:65-86 | the same for a boolean |
| Messages.Serializer.AddFloat | _libs_/byzance/ByzanceSerializer.cpp:88-109 | the same for the bits of a float |
| Messages.Serializer.AddString | _libs_/byzance/ByzanceSerializer.cpp:111-154 | the same for the characters and their NUL |
| Messages.Parser.Init | _libs_/byzance/ByzanceParser.cpp:10-47 | invalid exactly for a bad length or version; otherwise the types and what is to be read |
| Messages.Parser.GetInt | _libs_/byzance/ByzanceParser.cpp:53-83 | takes an integer if it is next and all there, otherwise 0 and invalid |
| Messages.Parser.GetBool | _libs_/byzance/ByzanceParser.cpp:121-150 | takes a boolean likewise, even from a parser that is invalid already |
| Messages.Parser.GetString | _libs_/byzance/ByzanceParser.cpp:85-119 | takes the characters before a NUL that is part of the message |
| Messages.Parser.GetFloat | _libs_/byzance/ByzanceParser.cpp:152-182 | refuses exactly the floats that are all there, with the parser then invalid where it stands; otherwise takes four bytes of the buffer |
| Messages.FloatRefused | _libs_/byzance/ByzanceParser.cpp:152-182 | a float that was sent is never received, whatever follows it |
| Messages.TakenCoded | _libs_/byzance/ByzanceParser.cpp:53-182 | reading undoes coding for every integer, boolean and string, and fails for every float |
| Messages.WireForms | _libs_/byzance/ByzanceSerializer.cpp:44-181 | numbers are sent high byte first, negative ones in two's complement, booleans as 1 or 0, strings with a NUL |
| Messages.WireTypes | _libs_/byzance/ByzanceSerializer.cpp:183-190 | the type of argument k is in the high half of its byte for even k and in the low half for odd k: 1 boolean, 2 integer, 3 float, 4 string, 0 none |
| Messages.Compose | _libs_/byzance/ByzanceSerializer.cpp:44-154 | arguments added in order that fit make up the message of exactly those arguments |
| Messages.Interpret | _libs_/byzance/ByzanceParser.cpp:53-150 | the getters in order return exactly the arguments of the message |
| Messages.Exchange | _libs_/byzance/ByzanceParser.cpp:10-150 | from serializer to parser every list of at most eight arguments that fits survives, and the parser ends valid at the encoded length |
| Connectors.TrimCrlf | _libs_/byzance_drivers/support_functions.cpp:511-527 | all line ends at the end are cut off in place; the result is always 0 |
| Connectors.CalcCrc | _libs_/byzance_drivers/support_functions.cpp:500-509 | the exclusive or of the characters, a byte |
| Connectors.Connector.Write | _libs_/byzance/Connector.cpp:38-76 | sends the trimmed text, `#`, its checksum in two digits and a line end |
| Connectors.Connector.ReceivedChar | _libs_/byzance/Connector.cpp:102-183 | what each character does to the buffered line and the message |
| Connectors.Connector.Read | _libs_/byzance/Connector.cpp:15-36 | a message is handed out once |
| Connectors.LineReceived | _libs_/byzance/Connector.cpp:111-166 | a line is accepted exactly if its last `#` is followed by the checksum of what is before it |
| Connectors.EndedExactly | _libs_/byzance/Connector.cpp:111-166 | any line at all: it is over, and accepted exactly if behind its last `#` stands the checksum of what is before; the message is that |
| Connectors.NoHash | _libs_/byzance/Connector.cpp:119-135 | a line without a `#` is refused |
| Connectors.TrailerIs | _libs_/byzance/Connector.cpp:66-67 | the trailer: `#`, two capital digits, carriage return and line feed |
| Connectors.FramedReceived | _libs_/byzance/Connector.cpp:38-183 | what is sent is received, without the line ends at its end |
| Connectors.CorruptionDetected | _libs_/byzance/Connector.cpp:102-183 | any one character of the message replaced makes the line refused |
| Connectors.Transmit | _libs_/byzance/Connector.cpp:15-183 | a message goes from one end of the line to the other unchanged |
| Bytes.XorDetects | _libs_/byzance_drivers/support_functions.cpp:500-509 | changing one byte always changes the checksum |
| Bytes.XorAllParity | _libs_/byzance_drivers/support_functions.cpp:500-509 | each bit of the checksum is the parity of that bit over the characters |
| Bytes.BitsOf | _libs_/byzance_drivers/SpiFlash.cpp:100-147 | programming a byte leaves set exactly the bits set both before and in the data |

## Left out

- Device.Live: ends before the first event that is out of order: declaring 2 MiB or more, sending data before the erasure has finished or beyond the declared size, updating the backup while it is being made. The code checks none of these; after one, Device.LiveAnyhow says what the chip holds and FlagSafety what is left of the promises, but nothing is said about the backup.
- Machine.After: what an event does that would erase, copy to or write the journal: declaring nearly 8 MiB or more, updating the backup with nearly 6 MiB or more, or data that comes to that. Device.Perform, Device.LiveAnyhow, Device.LivesAnyhow and the results of FlagSafety and FlagLoss ask for room; what data does there is stated for single parts (UploadData) and for one run (Device.RunOver), not in general.
- BinaryManager.BinManager.WriteBinPart: data beyond the end of the chip, where its addresses wrap around.
- BinaryManager.BinManager.UpdateBackup: sizes whose copy would reach the journal are not carried out.
- MqttCommands.Commands.UploadData: parts beyond the end of the chip; and after one that has reached the journal no step of the machine is promised.
- BinaryManager.BinManager.BackupStart: a build id that fills its field without a NUL, which `strcmp` would compare on into the version, is compared within its field.
- MqttCommands.Commands.UpdateStart: the bootloader as a target is missing.
- ExternalMemory.ExtMem.Init: like HandleJournal and SecureWrite it is limited to records and targets of whole subsectors below the index.
- ExternalMemory.ExtMem.HandleJournal: accepted records whose destination is unaligned or reaches the index are not replayed; no `secure_write` of the system publishes one.
- ExternalMemory.ExtMem.SecureWrite: targets in the index and journal partitions are not modelled; the system has none.
- PicoJson.ParseText: after a syntax error neither the position nor the text of the message is promised.
- Messages.Parser.GetBool: on a parser whose constructor refused the message the source reads uninitialised fields; that is not modelled.
- Device.Lives: the firmware in the internal flash stays the same from life to life; the bootloader that replaces it is not part of this model.
- Messages.Parser.GetFloat: what it reads beyond the end of the message is whatever the static buffer held.
- Messages.Parser.GetString: `strlen` is taken to stop at the end of the static buffer.
- Nat64.Translator.Input: packets are assumed to have no IPv4 options, a true total length that fits the buffers, and whole port and checksum fields; the code checks none of these.
- Connectors.Connector.Write: text after formatting, without `%`, short enough for the trailer; the code passes the line to `printf` and appends the trailer unchecked.
- Json: numbers with a fraction, an exponent or beyond 2^53 are known by their text only; `strtod`, `printf` and the locale are not modelled, nor is the text of the error message.
- Journal.SecureWriteAtomic: ranges below the index; records whose destination is not aligned or reaches the index, which no `secure_write` of the system publishes, are not replayed in the model.
- NorFlash: SPI commands, DMA and busy polling of the chip are replaced by reads, programs and erasures.
- `flash_firmware`, internal flash erasure, `fix_build_id` and `fix_bootloader`: internal flash is only read here.
- Configurator: the commands that set the other fields; what start-up makes of them is modelled.
- Mutexes, timeouts of locks, allocation failure, callbacks, LEDs, progress percentages (whose division by a declared size of 0 is not modelled) and logging.
- Start-up of the MQTT manager, which keeps its own descriptions elsewhere in the configuration partition.
- The upload watchdog's clock: its expiry is an event of Device.Perform.
- NatTable: the scan for a free row looks at the bound before the row; the source does it the other way round.
- `tun_dri.c`, lwIP output, DNS64, and the rest of the stack around Nat64.
- Dali: bit timing and the receiver; COMPARE is answered if a lamp still to be found has an address at most the search address.
- Connectors: the lock, which only spins until it is taken, and the attaching of interrupts.
- The MQTT client, HTTP pages, TLS, the radio and sensor drivers.
