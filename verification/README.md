# A verified model of espbewi's flash, boot and configuration logic

This project models the parts of the repository whose correctness cannot be seen by reading one
function: the firmware upload to NOR flash, the `otadata` entry update that exists once in the OTA
adapter and once in the bootloader, the calendar conversion given to MbedTLS, the configuration
store's records, generations and capacity, the bootloader's flash access and image loading, and
the Wi-Fi scan. Everything is proved for all inputs and for every point at which the hardware may
refuse or cut a command.

Flash is one class, `FlashChip.Chip`. Erasing sets cells to 0xFF, programming clears bits and never
sets one. Each command succeeds with exactly that effect, or is refused, or is cut anywhere: a cut
erase leaves anything in its range, a cut program has cleared some of the bits it was to clear, and
neither touches a cell outside its range. The chip records its erases, its commands, what the cells
held after each command, and its ROM reads in ghost fields. A ghost counter `faults` tells how often the hardware has failed, apart from refusals by the
code: "fails only through the hardware" means that a failing call has raised it during that call, so
it also holds for the retry after an earlier failure.

The modules, in reading order:

- `Machine`: bytes, 32-bit sizes, division facts.
- `Calendar`: seconds since the Epoch to broken-down time.
- `FlashChip`, `RomDriver`, `Partitions`: the chip, byte access through word-sized ROM commands,
  bounded erase.
- `ArtifactStorage`, `EraseModes`, `UploadState`, `WriteSessions`, `ArtifactWriters`, `Preloaded`: the upload
  pipeline and the digest of a preloaded image.
- `BootEntries`, `EntryUpdate`, `OtaData`, `BootUpdate`: the entry format's laws, the update as a step
  machine with power cuts, and its two executors.
- `PartitionTable`, `ImageLoader`: what the bootloader reads, copies and maps.
- `ConfigRecord`, `BlobEntries`, `NvsStore`, `ConfigSpace`, `ConfigRuns`: the configuration store, and
  whole runs of its backend.
- `WifiScan`: one entry per network, strongest access point first seen.
- `Boards`: the conditions of the promises above hold on the supported boards.

## What comes out

**Upload.** `ArtifactWriter.Sound` is the invariant of a whole upload: acknowledged bytes equal the
received stream, bytes a failed write may have reached still have every bit their value needs (so a
retry completes them), everything later up to the erase watermark is 0xFF, the watermark is a 64 KiB
multiple or the partition size, the erased ranges lie end to end from the start of the partition,
and both counters equal their closed forms. The constructor establishes it and `Append` keeps it
whatever fails. The log of commands adds that every program command lies in what the upload has
erased, and none reaches below the durable watermark. Two statements one might make about the pipeline are not true of the code as it
stands; what holds is:

- *Received bytes never pass the erase watermark* holds exactly while they fit the partition
  (`ReceivedWithinErased`); `ReceivedCanPassErased` reaches the other case. `Finish` then
  reports an incomplete artifact and writes nothing.
- *Everything from the durable to the erased watermark is 0xFF* holds after every successful append.
  After a failed one it is sure exactly when the whole blocks that were attempted hold only 0xFF
  (`ErasedIffNothingAttempted`), so always while less than a block is pending;
  `FailedAppendMayLeaveBytes` gives the flash a failed append may leave otherwise.

Bytes below the durable watermark are unchanged by every append and by `Finish`, failed or not.

**The two erase modes.** `EraseModes.StoreStream` writes a stream that arrives in any chunks, in either
mode. `ModesAgree` erases ahead, writes without erasing, and leaves the image that erasing block by
block leaves, however the same stream is cut.

**Entry update.** The step machine `EntryUpdate.Run` may stop inside any command. `CutSafety` says what
can be found in flash then, `AtomicSwitch` what that means for the newest of the two entries. Both
executors produce runs of that machine, and both are held to it by the chip's own log: at every instant
and in the flash a failure leaves, the rest is as before, and once the log shows the sector erased it
decodes to nothing or to the new entry (`Guarded`). `ExecutorsAgree` compares them from equal flash.

**Capacity.** The capacity computed at boot does not depend on what the configuration spaces hold, only
on what the backend keeps outside its blobs: the entries that name its two namespaces, and a canary
left by an interrupted self-check. `CapacityLaw` is the exact law over every sequence of commits, clears
and self-checks. `ConservedIff` says of every store when all runs conserve the capacity. Without a
canary: namespaces cost nothing, or there is no capacity, or no run finds room to create a namespace
that is missing; in a store with room that means both namespaces exist (`ConservedWithRoom`). With a
canary: the store is too full to check again, or the entry the canary frees does not fill a page.
`CapacityAcrossRun` proves that two boots with any requests between them obey this.

**Reservations.** `ReservedRun` carries claims admitted at boot through every sequence of in-budget
changes and self-checks: each change that fails does so through the hardware in that very request, or
because the generations of its space are used up. A record that does not decode would be refused as corrupt; none appears in such a run.

**Entry count of a blob.** The closed form equals the cost of really splitting the blob for every size
exactly when a full page's blob data is made of whole items (`ExactIffChunksAreWholeItems`).

## Model

| member | source | states |
|---|---|---|
| Calendar.YearOfEraIsExact | services/tls/src/lib.rs:154-156 | for every day of a 400-year era the year estimate names the March-based year that contains the day |
| Calendar.FromMarchIsExact | services/tls/src/lib.rs:157-160 | cutting a March-based year by 153 days per five months gives a real civil date with the right day of the year, leap or not |
| Calendar.MarchDayIsExact | services/tls/src/lib.rs:152-156 | the era arithmetic accounts for every day since the Epoch: days equal the year's start plus the day of the year |
| Calendar.CivilIsOrdinal | services/tls/src/lib.rs:150-160 | the closed form inverts the count of days: its date is real, from 1970 on, and is that many days after the Epoch |
| Calendar.CumulativeTable | services/tls/src/lib.rs:164-166 | the table with its leap correction is the running sum of the month lengths, in leap and common years |
| Calendar.OrdinalIsInjective | services/tls/src/lib.rs:150-160 | a day number belongs to one civil date only, so the conversion's date is the only right one |
| Calendar.ClosedFormSteps | services/tls/src/lib.rs:150-177 | one more day advances year, month, day, day of year and weekday by exactly one step of a Gregorian calendar |
| Calendar.ClosedFormRefinesDayByDay | services/tls/src/lib.rs:150-177 | the closed form is the calendar counted one midnight at a time from Thursday 1970-01-01, and every date of it is valid |
| Calendar.AnswersBeforeYear10000 | services/tls/src/lib.rs:161-163 | for every 64-bit epoch there is an answer exactly when the date is before 10000-01-01 |
| Calendar.FieldsFollowTheCalendar | services/tls/src/lib.rs:149-179 | all nine fields: the counted calendar's date, and clock fields in range that add up to the second of the day |
| Calendar.PosixInvertsConversion | services/tls/src/lib.rs:149-179 | the formula of section 4.16 of POSIX.1-2017 applied to the fields gives the input back |
| FlashChip.PackedWindow | hardware/boot/src/lib.rs:98-101 | words packed four bytes at a time, lowest first, hold exactly the bytes in memory order |
| Machine.MaskRoundsDown | bootloader/esp/src/main.rs:347-348 | for numbers of any width, clearing the lowest bits rounds down to a power of two |
| RomDriver.MaskAlignsDown | hardware/boot/src/lib.rs:70 | the mask rounds every 32-bit address down to a word |
| RomDriver.ReadWindow | hardware/boot/src/lib.rs:69-84 | one aligned window of at most 64 words around the wanted bytes reads exactly these; the ROM is asked for that window and nothing else, and a failure names its start |
| RomDriver.FlashRead | hardware/boot/src/lib.rs:66-88 | fills the buffer with the flash slice for any offset and length; every ROM read is whole aligned words, 64 at most, inside the request rounded out to words; the address sum never wraps before a read fails; in range it fails only through the hardware |
| RomDriver.Pack | hardware/boot/src/lib.rs:98-101 | the word buffer's memory image starts with the chunk |
| RomDriver.FlashProgram | hardware/boot/src/lib.rs:91-109 | refuses unaligned requests without touching flash; otherwise the chunks together are one bytewise AND; a failure leaves earlier chunks complete, one chunk cut, later ones untouched, and names that chunk |
| RomDriver.StoppedIsTorn | hardware/boot/src/lib.rs:96-107 | stopping in any chunk is a cut of the whole program: no cell outside, no bit lost that was not to be lost |
| RomDriver.ProgramInPieces | hardware/boot/src/lib.rs:96-107 | programming in consecutive pieces is programming once |
| RomDriver.ReadsBack | hardware/boot/src/lib.rs:66-109 | reading back what was programmed gives the data exactly when no bit it sets was already cleared, always over erased cells |
| Partitions.EraseRange | hardware/partitions/src/lib.rs:54-90 | erases exactly the range; each refusal with its condition and without touching the chip; every command is an erase inside the range and the partition; an erasable range fails only through the hardware |
| ArtifactStorage.EspArtifactStorage.WithEraseMode | adapters/ota/src/lib.rs:190-206 | a backend exists exactly when the scratch buffer holds an erase block |
| ArtifactStorage.EspArtifactStorage.FlushBlock | adapters/ota/src/lib.rs:212-252 | leaves the data and zero bytes to the next program unit in one block, erased first or not; refuses without touching the chip exactly what is not a whole block of the partition; commands and failures stay inside the block |
| ArtifactStorage.EspArtifactStorage.CommitScratch | adapters/ota/src/lib.rs:246-251 | erase if this mode erases, then program; a legal block of the chip fails only through the hardware |
| ArtifactStorage.EspArtifactStorage.FillScratch | adapters/ota/src/lib.rs:228-234 | the scratch buffer holds the data followed by zeros to the next program unit |
| ArtifactStorage.PaddingIsZero | adapters/ota/src/lib.rs:228-234 | what padding adds to the data is zero, exactly up to the next program unit |
| ArtifactStorage.EspArtifactStorage.Write | adapters/ota/src/lib.rs:261-270 | consumes every whole block and only these, reports how far; commands stay inside the pending bytes and the partition, and a failure may have touched only the whole blocks; aligned data inside the partition fails only through the hardware |
| ArtifactStorage.EspArtifactStorage.Finish | adapters/ota/src/lib.rs:272-281 | flushes a last partial block; nothing to do for none, refused for a whole block or more |
| ArtifactStorage.FlushedBlock | adapters/ota/src/lib.rs:212-252 | erasing a block first or finding it erased leaves the same block: data, zeros to the program unit, then 0xFF |
| ArtifactStorage.ModesLeaveTheSameImage | adapters/ota/src/lib.rs:169-281 | a stream written over erased cells without erasing, and one written block by block with erasing, both leave the data, its padding and 0xFF |
| EraseModes.StoreStream | adapters/ota/src/lib.rs:169-281 | a stream arriving in any chunks through one backend of either mode leaves exactly the written stream, touches only the partition, and with room fails only through the hardware |
| EraseModes.ModesAgree | adapters/ota/src/lib.rs:169-281 | erasing ahead and writing without erasing leaves the image that erasing every block leaves, byte for byte, whatever the cells held and however the stream is cut |
| ArtifactStorage.WrittenInPieces | adapters/ota/src/lib.rs:264-268 | block-by-block writes compose to one write, in both modes |
| ArtifactStorage.StoppedInBlock | adapters/ota/src/lib.rs:264-268 | a failure in any block leaves a write that stopped within the whole blocks |
| UploadState.StartsSound | adapters/ota/src/shared_flash.rs:113-121 | a new upload satisfies the invariant over any partition contents |
| UploadState.EraseKeeps | adapters/ota/src/shared_flash.rs:143-145 | an erase that fails from the watermark on keeps the invariant |
| UploadState.EraseAhead | adapters/ota/src/shared_flash.rs:143-148 | an erase that completes moves the watermark and keeps the invariant |
| UploadState.ReceiveKeeps | adapters/ota/src/shared_flash.rs:127-128 | receiving bytes changes nothing that was claimed of flash |
| UploadState.WriteCompletes | adapters/ota/src/shared_flash.rs:149-152 | programming the pending blocks, over erased or partly programmed cells, makes the acknowledged prefix equal the stream |
| UploadState.CutWriteKeeps | adapters/ota/src/shared_flash.rs:149-152 | a write cut anywhere keeps the acknowledged prefix and leaves every pending byte able to take its value |
| UploadState.FinishCompletes | adapters/ota/src/shared_flash.rs:166-182 | the last block completes the image of the whole stream, with erased cells up to the watermark |
| WriteSessions.WriteSession.Append | adapters/ota/src/shared_flash.rs:102-103 | the session's assumed contract: keeps the bytes, moves the durable watermark only when the storage succeeds |
| WriteSessions.WriteSession.Finish | adapters/ota/src/shared_flash.rs:164-179 | the session's assumed contract: complete, flushed and approved by its verdict on the stream, or the reason why not |
| ArtifactWriters.ArtifactWriter.constructor | adapters/ota/src/shared_flash.rs:113-121 | establishes the upload invariant |
| ArtifactWriters.ArtifactWriter.EraseAheadTo | adapters/ota/src/shared_flash.rs:143-148 | moves the watermark by one erase of exactly the missing range; a failure leaves watermark, counter and log alone |
| ArtifactWriters.ArtifactWriter.Cover | adapters/ota/src/shared_flash.rs:133-148 | erases nothing for bytes that are covered, and otherwise to the 64 KiB boundary after them or the partition size; issues no program command; a well-placed partition fails only through the hardware |
| ArtifactWriters.ArtifactWriter.HandOver | adapters/ota/src/shared_flash.rs:149-160 | hands the bytes over without erasing; every command lies between the durable bytes and the erase watermark; both counters keep their closed forms |
| ArtifactWriters.ArtifactWriter.Append | adapters/ota/src/shared_flash.rs:129-162 | keeps the upload invariant whatever fails; erases nothing for covered bytes and never a whole 64 KiB beyond them; every program command lies in what the upload has erased, above the durable bytes; a refusal changes nothing; success acknowledges all but less than a block; data that fits fails only through the hardware |
| ArtifactWriters.ArtifactWriter.Finish | adapters/ota/src/shared_flash.rs:166-182 | success leaves, byte by byte, the stream, zeros to the next program unit and 0xFF up to the watermark, and counts every sector rounded up; incomplete if and only if bytes are missing or beyond the watermark, and then nothing is written; rejected only if the session rejects the stream |
| ArtifactWriters.AppendKeepsUpload | adapters/ota/src/shared_flash.rs:129-162 | any outcome of handing bytes to the session keeps the invariant, and changes only the attempted blocks |
| ArtifactWriters.ArtifactReadsBack | adapters/ota/src/shared_flash.rs:164-182 | the first bytes of a finished partition are the received stream |
| ArtifactWriters.HeldBytes | adapters/ota/src/shared_flash.rs:164-182 | the finished partition byte by byte: stream, zeros to the program unit, erased cells |
| ArtifactWriters.DesiredCoversEnd | adapters/ota/src/shared_flash.rs:133-138 | the erase target covers what fits of the received bytes, is a batch boundary or the partition size, and lies less than 64 KiB beyond the bytes |
| ArtifactWriters.NothingMoreDesired | adapters/ota/src/shared_flash.rs:135-143 | where the received bytes that fit are covered, no further erase is wanted |
| ArtifactWriters.ReceivedWithinErased | adapters/ota/src/shared_flash.rs:129-162 | received bytes are within the erased part if and only if they fit the partition |
| ArtifactWriters.ErasedIffNothingAttempted | adapters/ota/src/shared_flash.rs:129-162 | the invariant makes the cells between the watermarks erased if and only if the attempted whole blocks are all 0xFF, as they are when less than a block is pending |
| ArtifactWriters.FailedAppendMayLeaveBytes | adapters/ota/src/shared_flash.rs:129-162 | for every attempted byte that is not 0xFF there is a flash a failed append may leave, with the blocks before it written and its own cut, in which the cells between the watermarks are not erased |
| ArtifactWriters.ReceivedCanPassErased | adapters/ota/src/shared_flash.rs:143-158 | one byte after a full partition is accepted without an erase, so received passes the watermark |
| ArtifactWriters.TilesAreDisjoint | adapters/ota/src/shared_flash.rs:143-148 | the erased ranges of an upload are ordered, disjoint and within the erased part |
| ArtifactWriters.BatchesAddUp | adapters/ota/src/shared_flash.rs:147 | the per-call batch counts add up to the watermark's, also when the last range ends at the partition size |
| ArtifactWriters.SectorsAddUp | adapters/ota/src/shared_flash.rs:160 | the per-call sector counts add up to the durable sectors |
| ArtifactWriters.CeilOfLastBlock | adapters/ota/src/shared_flash.rs:180 | with the last partial sector they add up to the size in sectors, rounded up |
| Preloaded.HashPreloaded | adapters/ota/src/shared_flash.rs:83-100 | hashes exactly the first `size` bytes, in order, of the slot that uploads go to; each refusal with its condition |
| BootEntries.LawsHaveAModel | adapters/ota/src/otadata.rs:141-149 | the laws assumed of the entry format can all hold at once |
| EntryUpdate.StepKeeps | adapters/ota/src/otadata.rs:136-151 | each step, complete or cut or resumed, keeps what its stage guarantees of the entry and everything outside the sector |
| EntryUpdate.RunKeeps | adapters/ota/src/otadata.rs:126-153 | the same at every instant of every run |
| EntryUpdate.DecodeByStage | adapters/ota/src/otadata.rs:126-153 | between erase and commit nothing decodes; during the commit nothing or the new entry; after it the new entry |
| EntryUpdate.CutSafety | adapters/ota/src/otadata.rs:126-153 | power lost anywhere: the rest of the flash is as before, and once erased the sector decodes to nothing or to exactly the new entry |
| EntryUpdate.ErasedInstant | adapters/ota/src/otadata.rs:136-139 | an erased sector decodes to nothing, and the rest is as before |
| EntryUpdate.BodyInstant | adapters/ota/src/otadata.rs:141-144 | the body's program over a blank entry, cut or complete, leaves an entry that decodes to nothing or to the new one |
| EntryUpdate.CommitInstant | adapters/ota/src/otadata.rs:146-151 | the commit word's program over a body, cut or complete, leaves nothing or the new entry |
| EntryUpdate.ReprogramCompletes | adapters/ota/src/otadata.rs:141-148 | programming again after a cut gives what an uncut program gives |
| EntryUpdate.LawfulOutcome | adapters/ota/src/otadata.rs:126-153 | on working hardware a lawful update in whole words succeeds and stores exactly the entry |
| OtaData.ReadAt | adapters/ota/src/otadata.rs:29-44 | both entries as stored, at the located partition; readable entries fail only through the hardware |
| OtaData.NewestIsLastMaximum | adapters/ota/src/otadata.rs:107-111 | the selected entry has the greatest sequence number and is the last of equals; none is selected exactly when none decodes |
| OtaData.TargetAvoidsRunningSlot | adapters/ota/src/otadata.rs:66-85 | of the entries marked valid or pending verification, one with the greatest sequence number decides: the target is the slot it does not run from, if it numbers one of the two |
| OtaData.NoMarkedNoTarget | adapters/ota/src/otadata.rs:73-80 | without such an entry there is no target |
| OtaData.UploadTargetIs | adapters/ota/src/otadata.rs:66-87 | the same on the stored bytes of both sectors, with the partition of the slot |
| OtaData.WriteTarget | adapters/ota/src/otadata.rs:68-87 | the partition that the stored entries marked valid or pending verification decide on; unavailable without a fault only when they decide on none |
| OtaData.EraseSector | adapters/ota/src/otadata.rs:136-139 | erase and blank read-back are a run of the step machine; the chip's log tells whether the sector was erased, and then it decodes to nothing |
| OtaData.ProgramOp | adapters/ota/src/otadata.rs:141-148 | one program command, complete or cut within its range; without faults it succeeds exactly where both drivers accept it |
| OtaData.ProgramBody | adapters/ota/src/otadata.rs:141-144 | body and exact read-back extend the run they are given; whatever fails, no sector is erased and the entry never decodes to anything but the new one |
| OtaData.ProgramCommit | adapters/ota/src/otadata.rs:146-151 | commit word and exact read-back extend the run they are given, under the same guarantee; success means the entry decodes |
| OtaData.Execute | adapters/ota/src/otadata.rs:126-153 | success means the sector holds and decodes to the entry; whatever fails, at every instant and in the end the rest of the flash is as before, and once the chip's log shows the sector erased it decodes to nothing or to the new entry; without faults the result is the deterministic outcome |
| OtaData.AtomicSwitch | adapters/ota/src/otadata.rs:107-153 | an update leaves what the other sector holds the newest until its own entry decodes, and switches in that instant exactly if it supersedes the other: nothing there, a greater sequence number, or an equal one in the later sector |
| OtaData.Transition | adapters/ota/src/otadata.rs:155-176 | confirm, reject and activate: the decision is taken on the stored entries, and without one nothing is written; the decided update keeps the guarantee of the protocol at every instant, failed or not; without faults the result is the protocol's |
| BootUpdate.EraseSector | bootloader/esp/src/main.rs:243-254 | unlock, erase and blank read-back over the ROM, which changes nothing while locked; only the sector that contains the entry changes, and the log tells whether it was erased; at a sector boundary a run of the same machine |
| BootUpdate.ProgramBody | bootloader/esp/src/main.rs:256-264 | body and exact read-back over the ROM, at a wrapping 32-bit address: whatever fails, only this program has reached the flash, in whole or cut, and after each chunk the entry decodes to nothing or the new one; at a sector boundary without wrap the given run is extended |
| BootUpdate.ProgramCommit | bootloader/esp/src/main.rs:266-274 | commit word and exact read-back over the ROM under the same guarantees |
| BootUpdate.Execute | bootloader/esp/src/main.rs:237-276 | success means the sector holds and decodes to the entry; whatever fails, everything outside the entry's sectors is as before, and past the erase it decodes to nothing or to the new entry, at a sector boundary at every instant; each error names the step that was under way, with the sector or the word of the entry that could not be read |
| BootUpdate.ExecutorsAgree | bootloader/esp/src/main.rs:237-276 | from equal flash and without faults both executors succeed or fail together and leave the same flash |
| PartitionTable.ScanTable | bootloader/esp/src/main.rs:200-212 | stops at the first non-entry and finds, for each kind, its last entry before it |
| PartitionTable.DescribesOneLayout | bootloader/esp/src/main.rs:197-220 | a table describes one layout or one error only |
| PartitionTable.TableRoundTrip | bootloader/esp/src/main.rs:197-220 | for every list of entries written as magic, type, subtype, offset and size, the layout is that of the last entry of each kind, and each missing or too small one has its own error |
| PartitionTable.ReadLayout | bootloader/esp/src/main.rs:191-221 | whatever list of entries the flash holds at 0x8000, the answer is its layout or its error; reading fails only through the hardware, and only when the second try fails too |
| PartitionTable.ReadOtadata | bootloader/esp/src/main.rs:223-229 | both entries as stored, in sector order, the second address wrapping at 32 bits; entries the chip has fail only through the hardware |
| ImageLoader.MaskRoundsToPage | bootloader/esp/src/main.rs:347-348 | for every page size that is a power of two the mask rounds a 32-bit address down to its page |
| ImageLoader.PagesAreLeast | bootloader/esp/src/main.rs:347-349 | the page count covers the segment, and one page less does not |
| ImageLoader.OverlayInPieces | bootloader/esp/src/main.rs:330-337 | copying in consecutive chunks is copying once |
| ImageLoader.CopySegment | bootloader/esp/src/main.rs:328-337 | RAM becomes old RAM with exactly the segment's flash bytes at its target |
| ImageLoader.CopySegments | bootloader/esp/src/main.rs:326-338 | afterwards every RAM segment holds its bytes, none overwritten by another, and RAM outside the targets is as before |
| ImageLoader.SegmentIsMapped | bootloader/esp/src/main.rs:347-354 | every address of a mapped segment translates to the flash byte it names |
| ImageLoader.OthersStayMapped | bootloader/esp/src/main.rs:342-359 | mapping a segment on other pages leaves earlier translations alone |
| ImageLoader.MapSegments | bootloader/esp/src/main.rs:342-359 | with masked addresses, afterwards every mapped segment reads through and other pages are as before these calls; it fails only when the ROM refuses a page start, with its code |
| ImageLoader.Load | bootloader/esp/src/main.rs:326-359 | at the jump, memory is the image: every RAM segment holds its bytes, every address of a segment loaded into the data or instruction range reads its flash byte, no other RAM byte has changed and no page without such an address is mapped; it fails only through the flash or a refused mapping |
| ConfigRecord.DecodeInvertsEncode | adapters/config-space/src/lib.rs:165-186 | decoding gives back what was encoded, for every generation, flag and payload |
| ConfigRecord.EncodeInvertsDecode | adapters/config-space/src/lib.rs:165-186 | whatever decodes is exactly the encoding of its record |
| ConfigRecord.RecordLayout | adapters/config-space/src/lib.rs:165-172 | the record byte by byte: "CSM1", the generation lowest byte first, the flag, the payload |
| BlobEntries.ChecksOnlyOverflow | adapters/config-space/src/lib.rs:159-163 | the count rounds both divisions up, and there is none exactly when a checked step overflows |
| BlobEntries.ClosedFormIsSplitCost | adapters/config-space/src/lib.rs:159-163 | for chunks of whole items the closed form is one index entry plus, per chunk, a header and its rounded-up items |
| BlobEntries.AnswerIsSplitCost | adapters/config-space/src/lib.rs:159-163 | for chunks of whole items, what the checked closed form answers is the cost of splitting the blob |
| BlobEntries.ExactIffChunksAreWholeItems | adapters/config-space/src/lib.rs:159-163 | it is right for every size if and only if chunks are whole items |
| BlobEntries.EntriesMonotone | adapters/config-space/src/lib.rs:159-163 | larger blobs never take fewer entries |
| NvsStore.Nvs.Set | adapters/config-space/src/lib.rs:203-206 | the assumed contract of a blob write, at the cost of splitting the blob: old or new version, fails only through the hardware when the new one has room beside everything stored |
| ConfigSpace.OwnedEntries | adapters/config-space/src/lib.rs:134-157 | sums the split cost of every stored blob once, in any order of enumeration |
| ConfigSpace.ReservationIsTwoVersions | adapters/config-space/src/lib.rs:217-222 | a reservation is twice the cost of splitting the space's largest record |
| ConfigSpace.ReservationExists | adapters/config-space/src/lib.rs:119-123 | there is a reservation exactly for names of 1 to 15 ASCII characters without NUL whose record sizes fit 32 bits |
| ConfigSpace.StoredTakesHalf | adapters/config-space/src/lib.rs:71-79 | admitted claims leave room for what is stored plus one more version of any claimed space |
| ConfigSpace.ReservationsSuffice | adapters/config-space/src/lib.rs:69-79 | at every moment a further in-budget version finds its entries with one page's worth to spare, less what was added outside the blobs since boot |
| ConfigSpace.BudgetsKept | adapters/config-space/src/lib.rs:188-209 | an in-budget change keeps every record within its budget, whatever its result |
| ConfigSpace.GenerationCountsChanges | adapters/config-space/src/lib.rs:188-245 | over any interleaving a space's generation rises by one with each of its commits and clears and never starts over; what shows is the last commit, or nothing after a clear |
| ConfigSpace.HistoryGoesOn | adapters/config-space/src/lib.rs:188-209 | a change request extends the history exactly when it reached the store, reported or not |
| ConfigSpace.RecordsUpdate | adapters/config-space/src/lib.rs:202-206 | writing an encoded record changes the decoded store at that space only |
| ConfigSpace.NvsConfigBackend.New | adapters/config-space/src/lib.rs:52-83 | the capacity at boot is every entry neither foreign nor kept outside the blobs, less one page, whatever is stored; it fails only through the hardware or a blob whose size overflows the entry count |
| ConfigSpace.NvsConfigBackend.SelfCheck | adapters/config-space/src/lib.rs:89-99 | the result becomes the health flag; configuration blobs are untouched; a passed check had room, met no fault and leaves no canary; with room only the hardware fails it, and on working hardware the store changes exactly as specified |
| ConfigSpace.NvsConfigBackend.ReplaceIn | adapters/config-space/src/lib.rs:190-208 | stores the next generation, or fails with a reason that tells what is stored; overflow and corruption leave the store unchanged |
| ConfigSpace.NvsConfigBackend.Replace | adapters/config-space/src/lib.rs:188-209 | the same with the name check and the health flag, and the history of the store goes on |
| ConfigSpace.NvsConfigBackend.Commit | adapters/config-space/src/lib.rs:239-241 | inside an admitted reservation a write fails only through the hardware; a corrupt record or an exhausted generation is refused with the store unchanged; on working hardware the store changes exactly as specified |
| ConfigSpace.NvsConfigBackend.Clear | adapters/config-space/src/lib.rs:243-245 | one more generation without data, under the same guarantees as a commit |
| ConfigSpace.NvsConfigBackend.Load | adapters/config-space/src/lib.rs:224-237 | what the history since boot says of the space: its last commit with its generation, or nothing; each error with its condition |
| ConfigSpace.FirstCommitCostsTheNamespace | adapters/config-space/src/lib.rs:69-79 | a commit between two boots lowers the capacity by the namespace's own entries if the namespace did not exist, and by nothing if it did |
| ConfigRuns.RunSpends | adapters/config-space/src/lib.rs:69-99 | over every sequence of commits, clears and self-checks entries only move between blobs, free ones and what is kept outside the blobs, and no namespace vanishes |
| ConfigRuns.CapacityLaw | adapters/config-space/src/lib.rs:69-79 | the capacity after a run is the one before it, less the cost of each namespace the run created, plus a canary it removed |
| ConfigRuns.MostFreeFalls | adapters/config-space/src/lib.rs:188-209 | no change raises the most entries that can ever become free: those that are, and what clearing every space would free |
| ConfigRuns.NothingEverCreated | adapters/config-space/src/lib.rs:89-99 | where the store has no room for a missing namespace, no run creates one |
| ConfigRuns.ClearAll | adapters/config-space/src/lib.rs:243-245 | with room to clear one space, clearing all frees everything that can be freed |
| ConfigRuns.SomeRunCreates | adapters/config-space/src/lib.rs:89-99 | where the store has room for a missing namespace, some run creates it |
| ConfigRuns.ConservedWithoutCanary | adapters/config-space/src/lib.rs:69-79 | the condition for stores without a canary, with the room that clearing spaces can free |
| ConfigRuns.ConservedWithCanary | adapters/config-space/src/lib.rs:69-99 | the condition for stores an interrupted self-check has left a canary in |
| ConfigRuns.ConservedIff | adapters/config-space/src/lib.rs:69-79 | for every store, all runs conserve the capacity if and only if: without a canary, namespaces cost nothing, or there is no capacity, or no missing namespace finds room; with one, no entry is free or the capacity stays below a page |
| ConfigRuns.ConservedWithRoom | adapters/config-space/src/lib.rs:69-79 | with both namespaces in place capacity is conserved; with capacity and room for a namespace and a record it is conserved if and only if namespaces cost nothing or both exist |
| ConfigRuns.CapacityAcrossRun | adapters/config-space/src/lib.rs:52-99 | two boots with any requests between them succeed without faults, blobs that cannot be counted aside; whatever fails, the capacity moves by what is kept outside the blobs; if nothing fails in between, it follows the law, and is equal where it is conserved |
| ConfigRuns.PerformReserved | adapters/config-space/src/lib.rs:217-245 | one in-budget change under admitted claims is logged with the fault counts around it, fails only if they differ or its generation is exhausted, and keeps all records within budget and readable |
| ConfigRuns.ReservedRun | adapters/config-space/src/lib.rs:217-245 | the same of every request of every sequence of in-budget commits, clears and self-checks after boot, on the backend's log of attempts, whatever failed before or fails later |
| WifiScan.WifiManager.Scan | services/wifi/src/lib.rs:118-163 | lists each named network once, in order of first appearance, with its earliest strongest access point; remembers these; without a result lists nothing and remembers what it had |
| WifiScan.Skip | services/wifi/src/lib.rs:137-146 | a nameless or not stronger access point leaves the listing right |
| WifiScan.Replace | services/wifi/src/lib.rs:147 | a strictly stronger one takes its network's entry in place |
| WifiScan.Open | services/wifi/src/lib.rs:148 | the first of a network opens the last entry |
| WifiScan.ListedOnce | services/wifi/src/lib.rs:135-150 | no network is listed twice |
| WifiScan.AllListed | services/wifi/src/lib.rs:135-150 | every named network is listed, with a signal no access point of it exceeds |
| WifiScan.ListingIsUnique | services/wifi/src/lib.rs:135-150 | a scan has one listing only |
| WifiScan.PinIsEarliestStrongest | services/wifi/src/lib.rs:167-172 | the pinned address is the network's earliest strongest access point of the scan; a name not in it pins nothing |
| WifiScan.WifiManager.BssidFor | services/wifi/src/lib.rs:167-172 | the same over any history of scans, of the last successful one |
| Boards.SectorsAreWellPlaced | adapters/ota/src/shared_flash.rs:73-75 | every partition of whole 4 KiB sectors on the chip is well placed for an upload |
| Boards.SectorsAccept | adapters/ota/src/lib.rs:261-270 | on whole sectors a backend takes any data that fits behind the durable bytes |
| Boards.SectorsFlush | adapters/ota/src/lib.rs:212-252 | on whole sectors every block of the partition can be flushed |
| Boards.WordEntriesAreServed | adapters/ota/src/otadata.rs:29-44 | entries of whole words in sectors of the chip are readable and updated alike by both drivers |
| Boards.LawfulStaysInSector | bootloader/esp/src/main.rs:256-271 | a lawful update stays in its sector |
| Boards.WordsCanBeHashed | adapters/ota/src/shared_flash.rs:92-98 | images of whole words at a word boundary can be hashed |
| Boards.ImagesAreValid | hardware/platform/src/lib.rs:53-101 | an ordinary image is valid under the memory maps of both chips, wherever it lies |
| Boards.OneClaimIsAdmitted | adapters/config-space/src/lib.rs:217-222 | a claim whose reservation fits the capacity is admitted and has its room |

## Left out

- FiBeWI's policies (`plan_boot`, `confirm`, `reject`, `activate`, `slot_of`, image validation, digest policy) are not part of the repository: they enter as parameters (`Platform`, `decide`), as the laws `Codec.Lawful`, as the precondition `ValidImage`, or as a free choice.
- WriteSessions.WriteSession.Append: an assumption about code outside the repository; the session may also close after a failure, and calls the storage directly instead of through the `ArtifactStorage` interface.
- WriteSessions.WriteSession.Finish: an assumption about code outside the repository; its verdict on the digest is an arbitrary function of the bytes received.
- NvsStore.Nvs.Set: an assumption about code outside the repository. Blobs are stored in one step; a write that fails leaves the old or the new version. A full page's blob data is whole items, what naming a namespace costs is the parameter `namespaceCost`, and other users of the partition hold a constant number of entries. Intermediate stages inside the NVS library, page layout and wear are not modelled.
- ConfigSpace.NvsConfigBackend.Commit: the guarantee of room asks that two namespaces and the canary fit one page's entries, which the spare page then covers.
- BootUpdate.Execute: off a sector boundary the erase clears the sector that contains the entry's start, so the run is not one of the step machine and the guarantee starts at the blank read-back. Agreement with the adapter also asks that commands stay in the sector, since a chunked ROM program across the chip's end may be partly done where a single NOR command is refused.
- OtaData.AtomicSwitch: speaks of the newest entry, which is what `boot_entry` reports; the boot decision itself is FiBeWI's `plan_boot`.
- OtaData.ReadAt: partition offsets near the end of the 32-bit address space do not wrap in the model.
- Preloaded.HashPreloaded: the digest is an abstract function of the bytes fed.
- ImageLoader.Load: image validation is a precondition, with 32-bit addresses and a page size that is a power of two; the sum of a segment's length and its place in the page does not wrap; the data and instruction buses share one MMU map; of the cache handling only the start of the MMU is modelled; logging, delays and the jump are not.
- PartitionTable.ReadLayout: re-attaching the flash between the two reads has no effect in the model.
- WifiScan.WifiManager.Scan: the authentication method is reduced to whether the network is secured, and the limit of 20 results to whatever the radio returns.
- The two chips' identical ROM drivers are modelled once.
- Partition-table parsing of the OTA adapter (ESP-IDF format) is a parameter; the bootloader's own scan is modelled.
- The name tables of `boot_entry`, `image_outcome` and `booted_slot`: finite case tables.
- The forwarding wrappers `erase_partition_range`, `read_entries`, `rom_program` and `with_nvs` appear inlined in their callers.
- Locks and asynchronous waiting: operations under the flash lock are sequential steps.
- TLS sessions, certificates, random numbers, Wi-Fi association and DHCP, watchdogs, register access and error-code tables: hardware effects or foreign calls.
