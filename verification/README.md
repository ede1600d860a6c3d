# Verification of the field device and gateway logic

A Dafny model of the decision logic of the two boards and of the self-contained algorithms
in their tools, with proofs over every input, every run and every pattern of failures.
`dafny verify dfyconfig.toml` checks the whole project.

## What is modelled

**A/B bootloader** (`FlashModel`, `Bits`, `ShiftRegister`, `Crc32`, `BootRecord`, `BootSlot`,
`SlotImage`, `BootCore`, `BootReport`, `BootSafety`, `BootChoice`, `BootRuns`, `BootTrial`,
`AppSession`, `Words`, `CrcTable`, `CheckValues`, `RecordLayout`, `TornRecord`, `CleanBoots`).
Flash is one mebibyte of bytes behind erase, program and read. A script decides the fate of
each operation: what it reports, whether power is lost at it, and what its target holds
afterwards. A theorem for every script is a theorem for every pattern of failures, torn
contents and cuts. The C functions are methods over a flash object, proved equal to functions
on the device state; the theorems are about those functions and about runs of them. Two
assumptions are stated as predicates and never hidden: `TearsShow` (a torn copy does not pass
for a third record) and `RoomToWrite` (the 32-bit generation does not wrap).
`TornRecord` and `CleanBoots` discharge the first one for flash whose operations stop between
double words, by computing that no interrupted record carries the erased CRC; that includes
every pattern of failures and of cuts between operations. `AppSession` is the application's side:
a record read once and any number of writes on the strength of it. `SlotImage` holds the slot check
against the packer of the repository, byte by byte, and `BootReport` tells what a boot reports from
its reads, its record writes and its slot checks, whatever fails.

**Field device** (`SensorFilter`, `SensorService`, `SensorHistory`, `AlarmService`, `AlarmHistory`,
`SensorRegisters`, `ConfigParams`, `ConfigService`, `RegisterTable`, `RegisterMap`, `RegisterRuns`,
`RegisterMeaning`, `RegisterService`, `BlockAtomicity`, `Lifecycle`, `BootConfig`, `EditSessions`). The services are classes with the fields of the C modules;
their methods are proved equal to step functions, and the runs of those are what the main
results speak of. The two histories tell readings and alarms from the samples of a whole run,
`RegisterMeaning` what a bus master may write at each address, and `BootConfig` which configuration a
boot puts in force. The store, the time provider and the drivers are the environment: what they
answer is an input.

**Algorithms** (`Crc16`, `InitOrder`, `LineAssembler`): the Modbus CRC-16 and burst splitter,
Kahn's topological sort of the init graph, and the UART line assembler.

## What the proofs found

Properties a reader might expect that do not hold, each with a concrete run or input and the
exact condition where one is known:

- `AppSession.FailedWriteIsLost`: the application takes the generation of a record from what it
  remembers, so a write after one that was refused and yet took effect can put an older record
  back in force. `CanFallIff`: exactly then. Reloading after a refusal avoids it
  (`StoppingStaysInStep`).
- `ConfigService.RestartCanLoseTheInvariant`: configurations accepted by `set_param` can be
  repaired at load into one with the low alarm above the high one. `RestartKeepsInvariantIff` says
  exactly which stored bands do that, `LoadKeepsInvariantIff` the same of any blob, and
  `SaveAndLoadIff` when a load is the identity.
- `RegisterMap.BlocksAreNotAtomic`: phase 1 of function code 16 checks the order of alarms against
  the configuration before the block, so phase 2 can stop half-way. `BlockAtomicity.BlockIsAtomicIff`
  says when it does not.
- `RegisterRuns.FailedSaveReadsBack`: a write refused because the store failed is in force.
  `RefusedWriteChangesIff` says what every refused write changes.
- `EditSessions.CancelLeavesTheAddress`, `CancelLeavesTheStore` and
  `StaleTimeoutEndsTheNextSession`: what a cancelled edit session does not undo, and a timeout that
  ends the wrong session, each on a run from boot, with `CancelKeepsAddressIff`,
  `CancelKeepsStoreIff` and `TimeoutIsForeignIff` as the exact conditions.
- `AlarmHistory.SidesMirrorIff`: the high limit is looked at first, so with limits the wrong way round by
  more than one a value beyond both raises the high alarm on either view.
- `BootConfig.SavedSettingSurvivesIff`: a setting that was accepted and stored can come back changed after
  the next boot; it does not exactly when the configuration is stable.
- `SensorFilter.RangeKeptIff`: the rounding term and C's truncation only suit ranges whose upper
  end is not negative. All ranges of the device are such.
- `BootRecord.CompletedWriteIsSelectedIffNoWrap`: at the wrap of the generation a completed write
  is not selected.

Where code and comments differ the model follows the code. `read_pressure` reads the pressure
sensor although its comments call it a planted error (modbus_register_map.c:411-428). The register
map design says reads never answer Illegal Data Value (docs/lld/application/modbus-register-map-lld.md:170-171);
the code does for a count of zero or above 125 (`RegisterRuns.ReadRefusesValueIff`). `BOOT_EVT_COPY_INVALID` is documented as "exactly one
copy was invalid" (boot_core.h:45); the code raises it for any copy that holds something invalid.
A soft restart accepted by the register map posts an event that no handler of the field device acts on
(`Lifecycle.RestartRequestIsIgnored`).

## Model

| member | source | states |
|---|---|---|
| `FlashModel.InternalFlash.ErasePage` | firmware/gateway/drivers/internal_flash/internal_flash.c:126-173 | a page erase has exactly the effect of the erase operation for the next verdict of the script: refused untouched outside the writable pages, else done, failed, torn or cut |
| `FlashModel.InternalFlash.Program` | firmware/gateway/drivers/internal_flash/internal_flash.c:175-243 | the same for programming; on a target that is not erased it writes the double words before the first one that is not, and fails |
| `FlashModel.InternalFlash.Read` | firmware/gateway/drivers/internal_flash/internal_flash.c:245-265 | a read returns what memory holds or an error, and never changes memory |
| `FlashModel.EraseIff` | firmware/gateway/drivers/internal_flash/internal_flash.c:126-173 | an undisturbed erase succeeds exactly on a 2048-byte page from 0x08004000 up; the page is then all 0xFF and every other byte as it was; without power nothing happens |
| `FlashModel.ProgramIff` | firmware/gateway/drivers/internal_flash/internal_flash.c:175-243 | an undisturbed programming succeeds exactly on whole erased double words from 0x08004000 up; the data then stands there and every other byte is as it was |
| `BootRecord.DecodeEncode` | firmware/gateway/middleware/firmware_store/firmware_image_format.h:138-149 | a boot record survives its byte layout |
| `BootRecord.EncodeDecode` | firmware/gateway/middleware/firmware_store/firmware_image_format.h:138-149 | every 24 bytes are the layout of the record they decode to |
| `BootRecord.SealedIsValid` | firmware/gateway/bootloader/boot_core.c:64-71 | a record built with legal banks and state and its CRC filled in passes validation |
| `BootRecord.SelectOpSelects` | firmware/gateway/bootloader/boot_core.c:96-130 | reading both copies changes no memory; when both could be read the result is the valid copy with the higher generation (copy A on a tie), and damage is reported exactly when a copy holds something that is not a record |
| `BootRecord.RecordSelect` | firmware/gateway/bootloader/boot_core.c:96-130 | the loop over the copies computes that selection, for any validity predicate |
| `BootRecord.RecordWriteOnce` | firmware/gateway/bootloader/boot_core.c:133-152 | one attempt is erase, program head, program CRC, read back and compare, stopping at the first failure |
| `BootRecord.RecordWrite` | firmware/gateway/bootloader/boot_core.c:158-188 | two attempts at most; the written record becomes the one in force exactly on success |
| `BootRecord.WriteKeepsOthers` | firmware/gateway/bootloader/boot_core.c:133-188 | a write, whatever fails, changes no byte outside the page of the copy it targets |
| `BootRecord.WriteStores` | firmware/gateway/bootloader/boot_core.c:133-188 | success is only reported for a copy that decodes to exactly the record |
| `BootRecord.WorkingWrite` | firmware/gateway/bootloader/boot_core.c:158-188 | on working flash the write succeeds |
| `BootRecord.PowerCutSafety` | firmware/gateway/bootloader/boot_core.c:96-188 | after a write and its retry, hit by any failures, torn contents and cuts, the next selection finds exactly the old or exactly the new record; the new one if success was reported |
| `BootRecord.CompletedWriteIsSelectedIffNoWrap` | firmware/gateway/bootloader/boot_core.c:158-188 | a write reported as done is the one selected next exactly when the 32-bit generation did not wrap; otherwise the old record stays in force |
| `RecordLayout.FieldsByOffset` | firmware/gateway/middleware/firmware_store/firmware_image_format.h:138-149 | where slots, state, count, generation and CRC lie, by byte offset |
| `RecordLayout.ValidBytesIff` | firmware/gateway/bootloader/boot_core.c:63-70 | exactly which 24 bytes pass for a record: EF BE DE C0, two slot letters, a state from 1 to 4 and the CRC of the first sixteen bytes |
| `RecordLayout.WrittenBytes` | firmware/gateway/bootloader/boot_core.c:158-188 | a write that reports success has put exactly these bytes at 0x08004000 or 0x08004800 |
| `RecordLayout.WriteRetriesOnce` | firmware/gateway/bootloader/boot_core.c:176-187 | with the first k operations refused a record write succeeds exactly for k up to one |
| `RecordLayout.NewestIsSelected` | firmware/gateway/bootloader/boot_core.c:96-129 | the record in force is the newest valid one, the first copy when both are as new |
| `TornRecord.FirstDoubleWordNeverChecks` | firmware/gateway/bootloader/boot_core.c:64-71 | no first double word of a legal record followed by erased flash has the CRC 0xFFFFFFFF |
| `TornRecord.CleanWritesTearVisibly` | firmware/gateway/bootloader/boot_core.c:133-188 | when every operation of a write and its retry stops between double words, no interrupted content passes for a third record |
| `TornRecord.PowerCutSafetyOnCleanFlash` | firmware/gateway/bootloader/boot_core.c:96-188 | power-cut safety on such flash, without an assumption on torn contents |
| `CleanBoots.CleanBootTears` | firmware/gateway/bootloader/boot_core.c:271-387 | every write of a whole boot on such flash tears visibly |
| `CleanBoots.TrialAtMostOnceOnCleanFlash` | firmware/gateway/bootloader/boot_core.c:302-359 | a pending trial is started at most once, without an assumption on torn contents |
| `CleanBoots.UntornBootIsClean` | firmware/gateway/bootloader/boot_core.c:271-387 | wherever operations fail and power is cut between operations, every record write of a boot meets that condition |
| `CleanBoots.TrialAtMostOnceBetweenOperations` | firmware/gateway/bootloader/boot_core.c:302-359 | a pending trial is started at most once under every such pattern of failures and cuts |
| `CleanBoots.CleanRunKeepsOrder` | firmware/gateway/bootloader/boot_core.c:271-387 | no run of boots on such flash loses the record in force or goes back to an older one |
| `Crc32.TableStepIsBitSerial` | firmware/gateway/middleware/config_store/config_store_crc.c:69-84 | the table-driven step is eight bit-serial steps of the polynomial |
| `Crc32.FeedBuffer` | firmware/gateway/middleware/config_store/config_store_crc.c:69-84 | feeding a buffer takes the running value of a message to that of the message followed by the buffer |
| `Crc32.End` | firmware/gateway/middleware/config_store/config_store_crc.c:86-94 | the begun, fed and ended value is the one-shot CRC of all buffers joined |
| `CrcTable.TableIsGenerated` | firmware/gateway/middleware/config_store/config_store_crc.c:19-62 | each of the 256 table entries is eight steps of the polynomial |
| `CheckValues.Crc32CheckValue` | firmware/gateway/middleware/config_store/config_store_crc.c:69-94 | the CRC-32 of the digits 1 to 9 is 0xCBF43926 |
| `ShiftRegister.TableShortcut` | firmware/gateway/middleware/config_store/config_store_crc.c:69-84 | for every polynomial, eight steps are one byte shift and the table entry of the low byte |
| `ShiftRegister.FeedKeepsDistinct` | scripts/two_board_monitor.py:35-41 | registers that differ still differ after the same message, for every polynomial with its top bit set |
| `BootSlot.ChunksCoverBody` | firmware/gateway/bootloader/boot_core.c:226-237 | the chunk reads cover every address of the body exactly once, in order, and nothing else, for every length |
| `BootSlot.ChunksAreLogged` | firmware/gateway/bootloader/boot_core.c:226-237 | whatever fails, the loop issues those reads in order up to the first that fails, all of them when none does, and nothing else |
| `BootSlot.ChunksAreBody` | firmware/gateway/bootloader/boot_core.c:226-237 | what the chunks return, joined, is the body |
| `BootSlot.BodyCrc` | firmware/gateway/bootloader/boot_core.c:224-239 | the begin, feed and end loop over the chunks computes the one-shot CRC of what they return |
| `BootSlot.SlotIsBootable` | firmware/gateway/bootloader/boot_core.c:204-254 | the slot check is descriptor, body CRC and vectors, in that order, stopping at the first failure |
| `BootSlot.SlotCheckIsExact` | firmware/gateway/bootloader/boot_core.c:204-254 | the check changes nothing, accepts only a slot whose descriptor, body CRC and vectors hold in memory, and on working flash accepts every such slot |
| `SlotImage.DescribedImageIsAcceptedIff` | firmware/gateway/bootloader/boot_core.c:204-254 | a slot with any descriptor, field by field, is accepted on working flash exactly with the magic number, a length that fits, the load address of the slot, both checksums and a plausible start in bytes |
| `SlotImage.PackedImageIsAcceptedIff` | scripts/make_slot_descriptor.py:37-52 | round trip with the packer, for every image and any flash contents: accepted with its length and version exactly when the slot starts with an aligned stack top in RAM and an odd reset vector inside the image; refused with a flipped checksum or another load address |
| `SlotImage.ThumbBitDecides` | firmware/gateway/bootloader/boot_core.c:190-201 | an image for slot A entered at 0x080061A0 is accepted with the Thumb bit set and refused with it clear |
| `SlotImage.PackedImageBoots` | firmware/gateway/bootloader/boot_core.c:271-387 | a plausible image packed for either slot makes a boot on working flash run an image, with no record or at most 14 rollbacks |
| `BootCore.SettleRecord` | firmware/gateway/bootloader/boot_core.c:290-337 | the trial rule: factory record, start of a trial, rollback of a trial, or nothing, with its write and its events |
| `BootCore.LaunchSlot` | firmware/gateway/bootloader/boot_core.c:350-386 | verify the named slot, else the other one within the rollback limit, and record the fall-back |
| `BootCore.BootCoreRun` | firmware/gateway/bootloader/boot_core.c:271-387 | the whole boot decision computes the report and the flash of the two halves |
| `BootReport.FlashFaultIff` | firmware/gateway/bootloader/boot_core.c:283-313 | for every script the outcome is HALT_FLASH_FAULT exactly when a copy could not be read, or no record or a pending trial was selected and its write failed |
| `BootReport.AbandonedTrialRunsPrevious` | firmware/gateway/bootloader/boot_core.c:314-359 | for every script, a running trial with fewer than 16 rollbacks runs the previous slot whenever that verifies after the write, recorded or not; the events say which |
| `BootReport.UnreadableRecordHalts` | firmware/gateway/bootloader/boot_core.c:283-286 | the report of a boot that could not read a copy |
| `BootReport.EmptyStoreBoot` | firmware/gateway/bootloader/boot_core.c:288-301 | the report of a boot without a record, for every script: factory record first, then slot A, or the halt |
| `BootReport.PendingBoot` | firmware/gateway/bootloader/boot_core.c:302-386 | the report of a boot that finds a pending trial, for every script |
| `BootReport.RunningBoot` | firmware/gateway/bootloader/boot_core.c:314-386 | the report of a boot that finds a running trial, for every script: outcome, events, slot, image and the record it ends on |
| `BootReport.SettledBoot` | firmware/gateway/bootloader/boot_core.c:334-387 | the report of a boot without a trial, for every script |
| `BootReport.CopyInvalidIff` | firmware/gateway/bootloader/boot_core.c:72-129 | an invalid copy is reported exactly when a copy holds neither a record nor 24 bytes of 0xFF |
| `BootChoice.BootTouchesOnlyRecords` | firmware/gateway/bootloader/boot_core.c:271-387 | a whole boot, whatever fails, changes no byte outside the two record pages |
| `BootChoice.RunIsVerified` | firmware/gateway/bootloader/boot_core.c:353-386 | RUN names a slot whose descriptor, CRC and vectors hold in memory, with its length and version; a halt names none |
| `BootChoice.WorkingBoot` | firmware/gateway/bootloader/boot_core.c:271-387 | on working flash a boot is exactly a decision table over record contents and which slots are bootable |
| `BootChoice.RunsIffSomeSlotBootable` | firmware/gateway/bootloader/boot_core.c:339-387 | on working flash with at most 14 rollbacks the outcome is RUN exactly when some slot is bootable, else HALT_NO_IMAGE |
| `BootRuns.BootMovesOn` | firmware/gateway/bootloader/boot_core.c:271-387 | one boot under any failures leaves the record in force, or one at most two generations on whose rollback count is within the limit if the old one was |
| `BootRuns.ThirdBootChangesNothing` | firmware/gateway/bootloader/boot_core.c:314-387 | with working flash the third boot leaves memory as it is and issues reads only |
| `BootRuns.BootsConverge` | firmware/gateway/bootloader/boot_core.c:314-387 | from the third boot on memory stays the same and every boot gives the same report |
| `AppSession.OpenedIsOk` | firmware/gateway/middleware/firmware_store/fs_metadata.c:117-159 | a session that could read both copies starts with the record in force remembered |
| `AppSession.MetaWrite` | firmware/gateway/middleware/firmware_store/fs_metadata.c:161-228 | one write of the application: target and generation from the remembered record, one attempt, the memory updated only on reported success |
| `AppSession.RequestIsRecorded` | firmware/gateway/middleware/firmware_store/fs_metadata.c:161-228 | on working flash, in step, a write is accepted exactly for legal slots and states; the record then in force is what was asked for, one generation on, else the old one |
| `AppSession.UpdateStep` | firmware/gateway/middleware/firmware_store/fs_metadata.c:161-228 | one write under any failures: the generation falls or the record is lost exactly when the remembered record was not the one in force and the written copy ends up invalid; the session falls out of step exactly when a refused write left the whole record |
| `AppSession.CanFallIff` | firmware/gateway/middleware/firmware_store/fs_metadata.c:161-228 | some pattern of failures makes the next write lose generations exactly when the remembered record is not the one in force |
| `AppSession.FailedWriteIsLost` | firmware/gateway/middleware/firmware_store/fs_metadata.c:161-228 | the failing run, from any record in force: a write takes effect but its read-back is refused, the next one is cut after its erase, and generation g + 1 gives way to g |
| `AppSession.StoppingStaysInStep` | firmware/gateway/middleware/firmware_store/fs_metadata.c:161-228 | a session that writes nothing more after a refusal stays in step |
| `AppSession.SessionKeepsOrder` | firmware/gateway/middleware/firmware_store/fs_metadata.c:161-228 | a session in step never loses the record in force or goes back to an older one |
| `BootTrial.GenerationNeverDecreases` | firmware/gateway/middleware/firmware_store/fs_metadata.c:117-228 | over any run of resets and application sessions in step, whatever fails, a valid record stays in force and its generation never decreases |
| `BootTrial.RollbacksStayBounded` | firmware/gateway/bootloader/boot_core.c:314-378 | over any run of boots a rollback count within the limit stays within it, although one boot can add two |
| `BootRuns.OneBootAddsTwoIff` | firmware/gateway/bootloader/boot_core.c:314-378 | on working flash one boot raises the rollback count by two exactly for a running trial with room for two, whose previous slot fails and whose other slot verifies |
| `BootTrial.SecondStartIff` | firmware/gateway/bootloader/boot_core.c:350-386 | a boot starts a trial image that already ran exactly when it reaches its slots, the previous slot fails its check, the count is below the limit, the trial slot passes and power stays on |
| `BootTrial.TrialStep` | firmware/gateway/bootloader/boot_core.c:302-359 | one boot of a trial: the stage only moves forward, and the trial image starts only out of the pending stage, with TRIAL_RUNNING in force |
| `BootTrial.TrialAtMostOnce` | firmware/gateway/bootloader/boot_core.c:302-359 | from a pending trial with a previous slot that keeps verifying, every run of resets, cuts and failed writes starts the trial image at most once |
| `Crc16.ComputeCrc16` | scripts/two_board_monitor.py:35-41 | the bit loop computes the register function |
| `Crc16.CrcOkMeansZeroRegister` | scripts/two_board_monitor.py:48-49 | a frame is accepted exactly when it has four bytes and the CRC over all of it is zero |
| `Crc16.AddCrcIsAccepted` | scripts/two_board_monitor.py:44-45 | a frame with its CRC appended is accepted exactly when it had two bytes |
| `CheckValues.Crc16CheckValue` | scripts/two_board_monitor.py:35-45 | the CRC-16 of the digits 1 to 9 is 0x4B37, sent low byte first |
| `Crc16.OneByteChangeDetected` | scripts/two_board_monitor.py:35-49 | changing one byte of an accepted frame of any length is detected |
| `Crc16.TwoByteChangeDetected` | scripts/two_board_monitor.py:35-49 | any change confined to two neighbouring bytes is detected |
| `Crc16.BurstDetected` | scripts/two_board_monitor.py:35-49 | any error burst of up to 16 bits, at any bit position, is detected |
| `Crc16.JoinedFramesRejected` | scripts/two_board_monitor.py:48-64 | two accepted frames joined never pass as one |
| `Crc16.BurstOfTwoSplits` | scripts/two_board_monitor.py:52-64 | such a burst has a cut into two accepted pieces |
| `Crc16.SplitFrames` | scripts/two_board_monitor.py:52-64 | two pieces are returned exactly when a cut into two accepted pieces exists; they are accepted and join to the burst; else the burst is returned whole |
| `InitOrder.TopoSort` | scripts/lld_gate_review_check.py:975-1004 | the result is a permutation of all nodes with every prerequisite before its dependents; None exactly when the graph has a cycle |
| `InitOrder.Edges` | scripts/lld_gate_review_check.py:982-993 | the counters hold the number of prerequisites, duplicates included, and the successor lists are the reversed edges with multiplicity |
| `InitOrder.Release` | scripts/lld_gate_review_check.py:1000-1003 | taking a node off its successors keeps counters exact and queues each node once, when nothing is waited for |
| `InitOrder.TopologicalHasNoCycle` | scripts/lld_gate_review_check.py:975-1004 | a graph with a topological order has no closed walk along prerequisites |
| `InitOrder.StuckHasCycle` | scripts/lld_gate_review_check.py:975-1004 | nodes that all wait for one another contain a cycle |
| `SensorFilter.MixStaysInRange` | firmware/field-device/application/sensor_service/sensor_service.c:359-384 | one filter step leaves no range with a non-negative upper end, for every alpha |
| `SensorFilter.RangeKeptIff` | firmware/field-device/application/sensor_service/sensor_service.c:359-384 | every range is kept exactly when its upper end is not negative: truncation lets a negative state climb out |
| `SensorFilter.StepTowards` | firmware/field-device/application/sensor_service/sensor_service.c:359-384 | with a constant input c the distance of the state to c+5 strictly falls or the state rests, it never crosses, and rest is within c-4..c+14 (c-4..c+5 when nothing is negative) |
| `SensorFilter.Settles` | firmware/field-device/application/sensor_service/sensor_service.c:359-384 | after as many samples as the first distance the state rests for good in that interval |
| `SensorFilter.RestExtremes` | firmware/field-device/application/sensor_service/sensor_service.c:359-384 | rest points near both ends of the interval occur |
| `SensorService.EveryRunIsOk` | firmware/field-device/application/sensor_service/sensor_service.c:265-388 | in every reachable state a seeded filter is in range, a valid reading is the value of a seeded filter, and a failed sensor never has a reading |
| `SensorService.FilterNeverOverflows` | firmware/field-device/application/sensor_service/sensor_service.c:376-383 | no sum of the filter leaves 32 bits, in any reachable state and for any raw sample |
| `SensorService.SteadyInputSettles` | firmware/field-device/application/sensor_service/sensor_service.c:324-388 | a seeded sensor that keeps reading the same value comes to rest next to it |
| `SensorService.ReportsTheFirstFailure` | firmware/field-device/application/sensor_service/sensor_service.c:324-341 | a cycle reports the lowest sensor that erred, and reports one exactly when some polled sensor did |
| `SensorHistory.ReadingIsValidIff` | firmware/field-device/application/sensor_service/sensor_service.c:343-356 | in every run a reading is valid exactly when there was a cycle, the sensor takes part and the last cycle had a sample for it within -4000..8500, 0..10000 or 3000..11000 |
| `SensorHistory.FirstGoodSampleIsTaken` | firmware/field-device/application/sensor_service/sensor_service.c:345-352 | the first good sample of a run becomes the reading as it is |
| `SensorHistory.LaterSamplesAreSmoothed` | firmware/field-device/application/sensor_service/sensor_service.c:359-384 | every other sample moves the reading a tenth of the way from the last one, the sum plus 5 rounded towards zero |
| `SensorHistory.ErrorKeepsValue` | firmware/field-device/application/sensor_service/sensor_service.c:324-341 | a driver error keeps the value of a reading and takes its validity |
| `SensorHistory.SeededIff` | firmware/field-device/application/sensor_service/sensor_service.c:345-352 | the filter is seeded exactly once the run has had a good sample |
| `SensorService.Service.Init` | firmware/field-device/application/sensor_service/sensor_service.c:127-171 | initialisation empties all state and fails for good the sensors off the board and those whose driver errs |
| `SensorService.Service.ProcessSensorReading` | firmware/field-device/application/sensor_service/sensor_service.c:324-388 | range check, clamp, seeding and filtering of one sensor into the working copy |
| `SensorService.Service.RunCycle` | firmware/field-device/application/sensor_service/sensor_service.c:265-322 | a cycle is the channel-wise step of every polled sensor, committed as a whole |
| `SensorService.Service.IsReady` | firmware/field-device/application/sensor_service/sensor_service.c:234-250 | ready exactly when every sensor that has not failed for good is valid |
| `SensorRegisters.TemperatureLosslessIff` | firmware/field-device/application/modbus_register_map/modbus_register_map.c:378-393 | a temperature comes back from its register exactly when it is invalid or between -32767 and 32767 |
| `SensorRegisters.UnsignedLosslessIff` | firmware/field-device/application/modbus_register_map/modbus_register_map.c:395-428 | humidity and pressure come back exactly when invalid or between 0 and 0xFFFE |
| `SensorRegisters.EveryReadingComesBack` | firmware/field-device/application/modbus_register_map/modbus_register_map.c:378-428 | in every reachable state a bus master recovers validity and value of all three sensors |
| `SensorHistory.SentinelIff` | firmware/field-device/application/modbus_register_map/modbus_register_map.c:378-428 | in every run a bus master reads the sentinel of a sensor exactly when its last cycle had no good sample for it, and the reading otherwise |
| `SensorHistory.NoSnapshotReadsSentinels` | firmware/field-device/application/modbus_register_map/modbus_register_map.c:378-428 | without a snapshot all three sensors read their sentinels |
| `SensorRegisters.AlarmFlagsTellTheStates` | firmware/field-device/application/modbus_register_map/modbus_register_map.c:444-484 | the flags register tells each alarm state and the fault bit |
| `AlarmService.EventsTellTheState` | firmware/field-device/application/alarm_service/alarm_service.c:229-293 | whatever samples and limits do, raise and clear events alternate and replaying them gives the state |
| `AlarmService.RaisesNeedTravel` | firmware/field-device/application/alarm_service/alarm_service.c:229-279 | n raises of one side need the valid samples to travel at least 2*(hysteresis+2)*(n-1), more than 2*hysteresis*(n-1) |
| `AlarmService.SettlesIff` | firmware/field-device/application/alarm_service/alarm_service.c:245-277 | a constant sample settles within two evaluations, from every state, exactly when the hysteresis is at least -1 |
| `AlarmHistory.ExcursionIsRaised` | firmware/field-device/application/alarm_service/alarm_service.c:247-257 | from the clear state a valid sample above the upper limit raises the high alarm, one below the lower limit the low alarm, each with exactly one event; one within the limits does neither |
| `AlarmHistory.ClearsIff` | firmware/field-device/application/alarm_service/alarm_service.c:259-271 | an active alarm clears, with one event, exactly when a valid sample passes its hysteresis |
| `AlarmHistory.QuietOnlyInside` | firmware/field-device/application/alarm_service/alarm_service.c:229-277 | after a valid sample the sensor is clear only within the limits or because this sample passed the hysteresis |
| `AlarmHistory.HighActiveIff` | firmware/field-device/application/alarm_service/alarm_service.c:229-277 | after a whole run the high alarm is active exactly when a valid sample above the limit met the sensor clear, or the run began with it, and no valid sample since passed the hysteresis |
| `AlarmHistory.LowActiveIff` | firmware/field-device/application/alarm_service/alarm_service.c:229-277 | the same of the low alarm, while no value can lie beyond both limits |
| `AlarmHistory.SidesMirror` | firmware/field-device/application/alarm_service/alarm_service.c:247-271 | negating samples and limits swaps the two alarms and their events in every run whose limits no value can exceed at once |
| `AlarmHistory.SidesMirrorIff` | firmware/field-device/application/alarm_service/alarm_service.c:249-256 | one sample mirrors exactly when the lower limit is at most one above the upper one |
| `AlarmHistory.NoticesTell` | firmware/field-device/application/alarm_service/alarm_service.c:283-293 | subscribers are told of every sensor whose alarm moves and of no other, each once, in the order of the sensors |
| `AlarmService.Alarms.Init` | firmware/field-device/application/alarm_service/alarm_service.c:98-128 | default limits, everything clear |
| `AlarmService.Alarms.SetThresholds` | firmware/field-device/application/alarm_service/alarm_service.c:130-148 | only the limits of the named sensor change; an unknown sensor is refused |
| `AlarmService.Alarms.AckAll` | firmware/field-device/application/alarm_service/alarm_service.c:209-223 | every state is cleared, none before initialisation |
| `AlarmService.Alarms.EvaluateSnapshot` | firmware/field-device/application/alarm_service/alarm_service.c:229-293 | every sensor takes its step, and subscribers are told of exactly the changes, in order |
| `ConfigParams.AcceptedKeepsSafe` | firmware/field-device/application/config_service/config_service.c:506-753 | an accepted set_param keeps bounds, gaps, positive hysteresis and low + hysteresis < high of all three quantities |
| `ConfigParams.AcceptsIff` | firmware/field-device/application/config_service/config_service.c:506-753 | set_param accepts a value exactly when the result meets the invariant and the alarm limits lie in their range |
| `ConfigParams.SafeInNumbers` | firmware/field-device/application/config_service/config_service.c:506-687 | the invariant in numbers: limits, least range widths and the order of the alarms |
| `ConfigParams.SpanNeverWraps` | firmware/field-device/application/config_service/config_service.c:602-670 | under that invariant no span subtraction wraps |
| `ConfigParams.LoadOkIsSafeAndKept` | firmware/field-device/application/config_service/config_service.c:190-346 | the load predicate implies the set_param invariant, and a configuration meeting it is loaded unchanged |
| `ConfigParams.ComesBackIff` | firmware/field-device/application/config_service/config_service.c:190-346 | a configuration is loaded unchanged exactly when each field passes its load check or is its default |
| `ConfigParams.RepairedGapIff` | firmware/field-device/application/config_service/config_service.c:231-271 | a repaired range keeps its limits always, and its gap exactly when it was not an oversized maximum over a minimum near the default maximum; in particular whenever the maximum was within its limit |
| `ConfigParams.RepairedSafeIff` | firmware/field-device/application/config_service/config_service.c:231-329 | a repaired band meets the invariant exactly outside the gap case and the three alarm cases, told from the loaded fields and the defaults |
| `ConfigParams.ReloadSafeIff` | firmware/field-device/application/config_service/config_service.c:190-346 | the closed form for the bands set_param can reach |
| `ConfigParams.ReloadedParamsSafeIff` | firmware/field-device/application/config_service/config_service.c:190-346 | a configuration that meets the invariant is reloaded to one that does exactly when no band is of that form |
| `ConfigService.EveryRunIsOk` | firmware/field-device/application/config_service/config_service.c:348-452 | from the defaults every run of set_param, snapshot, restore and flush, with any store failures, keeps the invariant in memory, in the snapshot and in the store |
| `ConfigService.StoreHoldsLastSave` | firmware/field-device/application/config_service/config_service.c:348-452 | in every run the store holds the last configuration stored, and exactly the settings stored have been announced, in order |
| `ConfigService.ErrorsTell` | firmware/field-device/application/config_service/config_service.c:348-438 | the error of a setting or a restore tells what became of it; a setting that could not be stored is in force |
| `ConfigService.NoSpanWraps` | firmware/field-device/application/config_service/config_service.c:348-385 | no span wraps in any such run |
| `ConfigService.RestoreUndoes` | firmware/field-device/application/config_service/config_service.c:401-438 | restoring brings back the values of the snapshot, whatever was set in between and whatever the store does |
| `ConfigService.SaveAndLoadIff` | firmware/field-device/application/config_service/config_service.c:755-767 | save and load is the identity exactly on the configurations of ComesBackIff, and on all that meet the load predicate |
| `ConfigService.DefaultsSurvive` | firmware/field-device/application/config_service/config_service.c:474-495 | the default configuration survives save and load |
| `ConfigService.RestartCanLoseTheInvariant` | firmware/field-device/application/config_service/config_service.c:309-322 | three accepted humidity writes and a restart leave the low alarm above the high one; the span then wraps and every hysteresis of its type is accepted |
| `ConfigService.RestartKeepsInvariantIff` | firmware/field-device/application/config_service/config_service.c:190-346 | a restart of what any run has stored keeps the invariant exactly when no stored band is of the closed form |
| `ConfigService.LoadKeepsInvariantIff` | firmware/field-device/application/config_service/config_service.c:190-346 | a load of any blob keeps the invariant exactly when no loaded band is in the gap case or one of the alarm cases |
| `ConfigService.Service.Init` | firmware/field-device/application/config_service/config_service.c:170-188 | defaults in memory and no snapshot |
| `ConfigService.Service.ApplyLoadedBlob` | firmware/field-device/application/config_service/config_service.c:190-346 | null, short and wrong-schema blobs, and the field by field repair |
| `ConfigService.Service.SetParameter` | firmware/field-device/application/config_service/config_service.c:348-385 | validate, apply, persist, announce; memory is updated even when the store fails |
| `ConfigService.Service.SaveSnapshot` | firmware/field-device/application/config_service/config_service.c:401-415 | the snapshot is the live configuration |
| `ConfigService.Service.RestoreSnapshot` | firmware/field-device/application/config_service/config_service.c:417-438 | memory is the snapshot again, and it is persisted if the store saves |
| `ConfigService.Service.FlushParams` | firmware/field-device/application/config_service/config_service.c:440-452 | the live configuration is persisted if the store saves |
| `ConfigService.Service.PersistToStore` | firmware/field-device/application/config_service/config_service.c:755-767 | the store holds the live configuration after a successful save, else what it held |
| `RegisterTable.FindSlot` | firmware/field-device/application/modbus_register_map/modbus_register_map.c:309-319 | the scan finds the first entry with the address |
| `RegisterTable.EverySlotIsFound` | firmware/field-device/application/modbus_register_map/modbus_register_map.c:231-301 | the table ascends, so every entry is the one found at its address |
| `RegisterMeaning.LowAlarmRegister` | firmware/field-device/application/modbus_register_map/modbus_register_map.c:619-677 | the low alarm at 0x0100, 0x0110 and 0x0120: accepted exactly on its scale, within the range and below the high alarm by more than the hysteresis, when the store saves |
| `RegisterMeaning.HighAlarmRegister` | firmware/field-device/application/modbus_register_map/modbus_register_map.c:619-677 | the high alarm, one register on |
| `RegisterMeaning.HysteresisRegister` | firmware/field-device/application/modbus_register_map/modbus_register_map.c:637-682 | the hysteresis, another one on: from 1 to 1000, or 100, and less than half the distance of the alarms |
| `RegisterMeaning.OtherRegisters` | firmware/field-device/application/modbus_register_map/modbus_register_map.c:684-791 | poll interval 100 to 60000, slave address 1 to 247, which the bus moves to, and the two placeholders |
| `RegisterMeaning.CommandsDo` | firmware/field-device/application/modbus_register_map/modbus_register_map.c:794-842 | acknowledge and metrics reset take 1, restart takes 0xA5A5; each has its own effect and keeps what was written |
| `RegisterMeaning.TimePairRegisters` | firmware/field-device/application/modbus_register_map/modbus_register_map.c:866-895 | the pair at 0x0210 is accepted exactly for epochs 946684800 to 4102444799 that the time provider takes, and handed over as one number |
| `RegisterMeaning.ForbiddenBlocks` | firmware/field-device/application/modbus_register_map/modbus_register_map.c:985-1023 | a block over 123 registers, with a part of the time pair or with two commands is refused and changes nothing |
| `RegisterMeaning.SingleRefusesAddressIff` | firmware/field-device/application/modbus_register_map/modbus_register_map.c:959-980 | Illegal Data Address exactly where no writable register is |
| `RegisterMeaning.BlockRefusesAddress` | firmware/field-device/application/modbus_register_map/modbus_register_map.c:1025-1045 | a block is refused for an address only when it reaches such a one |
| `RegisterMeaning.ReadAnswersIff` | firmware/field-device/application/modbus_register_map/modbus_register_map.c:901-957 | a read answers with values exactly for 1 to 125 registers all of its kind, one value a register in order |
| `RegisterMeaning.CountersRecombine` | firmware/field-device/application/modbus_register_map/modbus_register_map.c:486-541 | the register pairs of uptime, valid frames, CRC errors and sensor failures give back the 32-bit values |
| `RegisterMeaning.StatusRegisters` | firmware/field-device/application/modbus_register_map/modbus_register_map.c:436-484 | the state of the device, the three alarm states and the fault bit, as a bus master decodes them |
| `RegisterMap.BlockIsItsSingleWrites` | firmware/field-device/application/modbus_register_map/modbus_register_map.c:1025-1058 | a block past the command check and phase 1 has exactly the result and effect of its single writes in ascending order up to the first failure |
| `RegisterMap.SuccessfulBlock` | firmware/field-device/application/modbus_register_map/modbus_register_map.c:982-1058 | a successful block that is not the time pair is its single writes, all of them successful |
| `RegisterMap.OneRegisterBlock` | firmware/field-device/application/modbus_register_map/modbus_register_map.c:959-1058 | a block of one register is a single write, at every address |
| `RegisterMap.RefusedBlockChangesNothing` | firmware/field-device/application/modbus_register_map/modbus_register_map.c:985-1045 | a block refused for its length, by the command check or by phase 1 changes nothing |
| `RegisterMap.OutOfOrderIsRefused` | firmware/field-device/application/modbus_register_map/modbus_register_map.c:619-677 | a write that fails the order check of its validator is refused by the configuration service as well |
| `RegisterMap.TimeIsRefused` | firmware/field-device/application/modbus_register_map/modbus_register_map.c:856-864 | half of the time pair alone is refused and not remembered |
| `RegisterMap.BlocksAreNotAtomic` | firmware/field-device/application/modbus_register_map/modbus_register_map.c:1047-1058 | a block past phase 1 that phase 2 applies half of |
| `BlockAtomicity.BlocksAreShort` | firmware/field-device/application/modbus_register_map/modbus_register_map.c:231-301 | a block past the command check is one register, the display pair, or part of one triple of thresholds |
| `BlockAtomicity.BlockIsAtomicIff` | firmware/field-device/application/modbus_register_map/modbus_register_map.c:1025-1058 | every block past the command check and phase 1 is all or nothing exactly under inequalities in its values, its band and the answers of the store |
| `RegisterRuns.WriteReadsBackIff` | firmware/field-device/application/modbus_register_map/modbus_register_map.c:930-980 | an accepted single write reads back, except at the two display placeholders, which read 80 and 0 |
| `RegisterRuns.FailedSaveReadsBack` | firmware/field-device/application/modbus_register_map/modbus_register_map.c:709-791 | when the store fails the request is refused and the new value reads back all the same |
| `RegisterRuns.RefusedWriteChangesIff` | firmware/field-device/application/modbus_register_map/modbus_register_map.c:794-842 | a refused single write changes the configuration exactly when the store failed on a valid new setting, and anything at all exactly then or when a command register latched the refused value |
| `RegisterRuns.ReadRefusesValueIff` | firmware/field-device/application/modbus_register_map/modbus_register_map.c:901-957 | a read answers Illegal Data Value exactly for a count of zero or above 125 |
| `RegisterRuns.SensorBlockIsLossless` | firmware/field-device/application/modbus_register_map/modbus_register_map.c:901-928 | one block read of the three sensor registers tells a bus master their state in every run of the sensor service |
| `RegisterRuns.TimeIsNeverHalfApplied` | firmware/field-device/application/modbus_register_map/modbus_register_map.c:858-895 | in every run of requests the two time cells come from one request, the last pair, or are zeros, and set_time was called exactly for the pairs in 2000..2099 |
| `RegisterRuns.EveryRunKeepsConfigOk` | firmware/field-device/application/modbus_register_map/modbus_register_map.c:982-1058 | no run of requests breaks the configuration invariant |
| `RegisterService.Service.WriteCell` | firmware/field-device/application/modbus_register_map/modbus_register_map.c:709-864 | each write handler has the effect of the write function |
| `RegisterService.Service.ApplySetTime` | firmware/field-device/application/modbus_register_map/modbus_register_map.c:875-895 | the pair is cached, range-checked and handed to the time provider |
| `RegisterService.Service.WriteSingleReg` | firmware/field-device/application/modbus_register_map/modbus_register_map.c:959-980 | the answer and the whole new state of a single write: unmapped and read-only addresses, the validator, then the handler; nothing before initialisation |
| `RegisterService.Service.CheckCommands` | firmware/field-device/application/modbus_register_map/modbus_register_map.c:996-1014 | the scan for command registers and time halves |
| `RegisterService.Service.ValidateAll` | firmware/field-device/application/modbus_register_map/modbus_register_map.c:1027-1045 | phase 1 returns the first objection and changes nothing |
| `RegisterService.Service.ApplyAll` | firmware/field-device/application/modbus_register_map/modbus_register_map.c:1047-1058 | phase 2 writes until the first failure |
| `RegisterService.Service.WriteMultipleRegs` | firmware/field-device/application/modbus_register_map/modbus_register_map.c:982-1060 | the answer and the whole new state of a block write: length, time pair, command check, phase 1, phase 2 |
| `RegisterService.Service.ReadRegisters` | firmware/field-device/application/modbus_register_map/modbus_register_map.c:901-957 | function codes 04 and 03: all registers of the block, or the first objection |
| `Lifecycle.GateIsSetOnce` | firmware/field-device/application/lifecycle_controller/lifecycle_controller.c:219-319 | in every interleaving with other tasks and timers the start gate is set at most once and only after every call of the boot sequence succeeded |
| `Lifecycle.GatesNeverFall` | firmware/field-device/application/lifecycle_controller/lifecycle_controller.c:219-319 | a gate that was set stays set |
| `Lifecycle.FaultedIsAbsorbing` | firmware/field-device/application/lifecycle_controller/lifecycle_controller.c:419-449 | nothing leaves the faulted state and nothing sets the gate from it |
| `Lifecycle.AcceptedFaultFaults` | firmware/field-device/application/lifecycle_controller/lifecycle_controller.c:466-473 | a fault accepted with k events ahead of it forces the faulted state once k+1 events have been taken |
| `Lifecycle.QueuedFaultFaults` | firmware/field-device/application/lifecycle_controller/lifecycle_controller.c:200-213 | the same for a fault anywhere in the queue, in the boot sequence and in the event loop |
| `Lifecycle.CancelRestores` | firmware/field-device/application/lifecycle_controller/lifecycle_controller.c:327-386 | a session ended by cancel or timeout leaves the configuration in memory as on entry, whatever was set in between |
| `Lifecycle.ApplyCommits` | firmware/field-device/application/lifecycle_controller/lifecycle_controller.c:331-343 | a session ended by apply keeps what was set in it, in memory and in a store that saves, and moves the bus to the configured address |
| `Lifecycle.GateIsSetOnceFromBoot` | firmware/field-device/application/lifecycle_controller/lifecycle_controller.c:219-319 | the gate result for every run from boot |
| `Lifecycle.FaultTakesEffectFromBoot` | firmware/field-device/application/lifecycle_controller/lifecycle_controller.c:419-449 | the fault result for every fault a run from boot has queued |
| `Lifecycle.RestartRequestIsIgnored` | firmware/field-device/application/lifecycle_controller/lifecycle_controller.c:327-386 | taking a soft restart request changes nothing but the queue, and in the boot sequence the place |
| `EditSessions.CancelKeepsAddressIff` | firmware/field-device/application/lifecycle_controller/lifecycle_controller.c:345-352 | after every cancelled session the bus is at its address on entry exactly when the session moved it nowhere, or last of all back there |
| `EditSessions.CancelKeepsStoreIff` | firmware/field-device/application/lifecycle_controller/lifecycle_controller.c:345-352 | after every cancelled session the store holds the configuration of the entry exactly when the restore was saved, or what was saved last, in the session or before it, was that configuration |
| `EditSessions.QueueIsHistory` | firmware/field-device/application/lifecycle_controller/lifecycle_controller.c:419-449 | the queue after any run is what it held and got, less the events taken, in order |
| `EditSessions.TimeoutIsForeignIff` | firmware/field-device/application/lifecycle_controller/lifecycle_controller.c:149-154 | a session ends by timeout exactly when it reaches its own timeout or a foreign one; a foreign one was queued at entry or posted by another task, and only such a one ends it while its timer runs |
| `EditSessions.BootsToReady` | firmware/field-device/application/lifecycle_controller/lifecycle_controller.c:219-319 | the boot the three runs below start with: defaults over defaults, ten moves, operational behind the gate |
| `BootConfig.BootPutsBlobInForce` | firmware/field-device/application/lifecycle_controller/lifecycle_controller.c:219-319 | with or without display, from any configuration and for any blob, a boot in which no call fails and no fault is taken ends operational behind the gate and at the address of the configuration in force: the defaults for another version, else every field by its check, the blob itself exactly when it is stable, safe exactly when no gap and no alarm order is lost |
| `BootConfig.SavedSettingSurvivesIff` | firmware/field-device/application/lifecycle_controller/lifecycle_controller.c:236-249 | a setting accepted and stored in one run is in force after the next boot exactly when the configuration it left is stable |
| `BootConfig.AppliedSessionSurvives` | firmware/field-device/application/lifecycle_controller/lifecycle_controller.c:331-343 | a configuration that an edit session applied and stored, and that meets the load predicate, is in force after the next boot |
| `BootConfig.FailedCallFaults` | firmware/field-device/application/lifecycle_controller/lifecycle_controller.c:225-290 | a boot whose k-th call fails ends in the fault of that call for good, and the gate is never set |
| `BootConfig.RefusedBlobFaults` | firmware/field-device/application/lifecycle_controller/lifecycle_controller.c:244-249 | a missing or short blob ends in fault 3 with the configuration as it was |
| `BootConfig.InitTimerWatches` | firmware/field-device/application/lifecycle_controller/lifecycle_controller.c:219-306 | the boot timer runs from the first call until the boot is operational, and firing queues fault 0xFFF0 |
| `EditSessions.CancelLeavesTheAddress` | firmware/field-device/application/lifecycle_controller/lifecycle_controller.c:345-352 | a run from boot whose cancelled session leaves the bus at another address |
| `EditSessions.CancelLeavesTheStore` | firmware/field-device/application/lifecycle_controller/lifecycle_controller.c:345-352 | a run from boot whose cancelled session leaves the edited value in the store |
| `EditSessions.StaleTimeoutEndsTheNextSession` | firmware/field-device/application/lifecycle_controller/lifecycle_controller.c:149-154 | a run from boot in which the timeout of one session ends the next, whose own timer still runs |
| `Lifecycle.Controller.PostEvent` | firmware/field-device/application/lifecycle_controller/lifecycle_controller.c:466-473 | a post is accepted exactly when the queue has room |
| `Lifecycle.Controller.PollAbort` | firmware/field-device/application/lifecycle_controller/lifecycle_controller.c:200-213 | one event is taken; a fault ends the boot, anything else is dropped |
| `Lifecycle.Controller.AdvanceBoot` | firmware/field-device/application/lifecycle_controller/lifecycle_controller.c:219-319 | each boot step has its call, its fault code and its successor, and the gate is the last step |
| `Lifecycle.Controller.InOperational` | firmware/field-device/application/lifecycle_controller/lifecycle_controller.c:365-386 | entering an edit takes the snapshot and starts the timer; a fault ends in the faulted state; every other event changes nothing |
| `Lifecycle.Controller.InEditing` | firmware/field-device/application/lifecycle_controller/lifecycle_controller.c:327-363 | apply persists and re-addresses the bus, cancel and timeout restore, a fault ends the session; every other event changes nothing |
| `Lifecycle.Controller.RunEventLoopOnce` | firmware/field-device/application/lifecycle_controller/lifecycle_controller.c:419-449 | one event is taken in every mode and handled by the mode it finds; an empty queue changes nothing |
| `LineAssembler.SplitsAtEol` | firmware/field-device/drivers/debug-uart/debug_uart_driver.c:233-292 | the stream of completed lines splits at every line end |
| `LineAssembler.OneLine` | firmware/field-device/drivers/debug-uart/debug_uart_driver.c:255-280 | text up to a line end is one line, unless it is empty |
| `LineAssembler.AssemblerIsSplit` | firmware/field-device/drivers/debug-uart/debug_uart_driver.c:189-292 | for every interleaving of bytes and reads the frozen line is the last completed one unless read, cut to 128 bytes and flagged exactly when longer; the lines read are completed lines in order, none twice |
| `LineAssembler.LineIsDelivered` | firmware/field-device/drivers/debug-uart/debug_uart_driver.c:189-292 | text without bytes 10 and 13, closed by either, is what the reader gets, in full up to 128 bytes and flagged as cut beyond |
| `LineAssembler.BareLineEnds` | firmware/field-device/drivers/debug-uart/debug_uart_driver.c:255-280 | line ends on their own are no lines |
| `LineAssembler.Driver.AttachRx` | firmware/field-device/drivers/debug-uart/debug_uart_driver.c:109-144 | receiving starts once, with a callback, from an empty state |
| `LineAssembler.Driver.Interrupt` | firmware/field-device/drivers/debug-uart/debug_uart_driver.c:233-292 | one interrupt is one step of the assembler, and the callback runs exactly when a line is frozen |
| `LineAssembler.Driver.ReadLine` | firmware/field-device/drivers/debug-uart/debug_uart_driver.c:189-231 | the frozen line is copied out, null-terminated and released; every refusal leaves the state alone |

## Left out

- BootRecord.PowerCutSafety: assumes that torn contents show (`TearsShow`); `TornRecord` proves it for operations that stop between double words, not for cells left at undefined levels by an interrupted erase.
- BootTrial.GenerationNeverDecreases: assumes room in the generation counter and sessions in step; without the one it fails as `CompletedWriteIsSelectedIffNoWrap` shows, without the other as `CanFallIff` does.
- BootTrial.TrialAtMostOnce: assumes a previous slot that keeps verifying; otherwise the fall-back starts the trial slot again by design of the code, exactly as `SecondStartIff` says.
- Slot contents change only through the application's update path, which is not part of this model; bit rot between two reads of the same boot is not modelled either.
- SlotImage.PackedImageIsAcceptedIff: speaks of working flash; what a failing read does to a check is in `BootSlot.SlotCheckIsExact` and `BootReport`.
- AlarmHistory.LowActiveIff: assumes limits that no value can exceed at once; otherwise the high alarm comes first, as `SidesMirrorIff` says.
- BootConfig.BootPutsBlobInForce: no parameter is set over the bus before the boot is over; the design has the other tasks wait for the start gate (docs/lld/application/lifecycle-controller-lld.md:300).
- Flash at register level (unlocking, caches, busy flags) and the jump to the image: volatile hardware with no decision logic.
- AlarmService.Alarms.SetThresholds: limits are unbounded integers; the C sums cannot overflow for the 16-bit limits the configuration service supplies.
- Time stamps, logging, health counters, subscriber tables and the watchdog kick: they feed nothing that is proved here.
- RegisterMap: the values of the firmware version registers are inputs, since firmware_version.h is generated and not part of this model.
- FreeRTOS mutexes and tasks: mutex-protected calls are atomic, the event queue is a bounded sequence, and other tasks act between the steps of the controller.
- Lifecycle.Controller.AdvanceBoot: the straight-line boot sequence is cut into one step a call, to let other tasks act in between.
- The BOARD_GATEWAY branches of the configuration and sensor services, the OTA path, cloud and console code.
