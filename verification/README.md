# FFU flashing: one meaning, two flashers, one session

This project models how UfpFfu puts a Full Flash Update image on a disk, and proves that its
several ways of doing so agree.

The program reads the image format twice: `ffu_parse` from an open file and
`ffu_parse_header_bytes` from a buffer, with different bounds checks. It writes disks twice: the
direct flasher reads the payload from the file in bounded chunks, and the streaming flasher
collects payload bytes from packets that can split them anywhere, writes an entry once it is
complete, and retries it after a fault. In front of the stream stands the secure-flash session, a
loop over USB messages that reassembles the header, delivers payload, writes sectors
asynchronously and answers queries.

`Replay` (module `StreamLaws`) says what flashing means with no buffers, packets or faults: the
payload of every entry is laid over the medium at each of its locations, in order. Everything else
is tied to it, up to the end-to-end theorem `EndToEnd.SessionRefinesDirect`. Beside these laws, the format and
the messages are described from the bytes alone, with every offset and constant written out:
`ImageFormat.AcceptedExactly` says for any byte string and plan whether the parsers accept the one with the
other, and the message modules do the same for what the session receives and answers.

## Reading order

| file | holds |
|---|---|
| Bytes, Memory, BlockIo | machine integers and byte order; memcpy and memset; block device with scripted faults, file with a position |
| FfuLayout, FfuParser | the format as functions; the two parsers as the source's loops, proved to compute them |
| ParserAgreement, PlanFacts, HeaderFacts | the two parsers agree; what an accepted plan looks like; what its bytes say |
| ImageFormat, FormatRefusals | which byte strings are images, with which plan, said without reading them in order; the status of every refusal |
| StreamFlash, StreamLaws, StreamRuns | the streaming machine and its context object; runs under any faults; retry; packet boundaries |
| DirectFlash, DirectLaws | the direct flasher; tiling, commit and dry run |
| SameDisk | both flashers stop at the same place with the same disk |
| LocationFacts | locations in bytes: which are written, why the others are refused, which sector is reported |
| Proto, Session, SessionLoop | packet builders and parser; the loop as a step function; the loop as an object, proved to follow it |
| SessionLaws, HeaderTransfer, AsyncLaws | queries and completion; header reassembly; asynchronous status and its disk |
| HeaderPackets, MessageTables, SectorWrites, AnswerFields | every message in bytes: where its fields are, how it is refused, what it leaves, what the answer says |
| EndToEnd, PacketPlan | the whole transfer; the packet plan |
| PayloadMessages, LateHeaders, RunningContext, ReportedSectors | payload packets, valid or not; header packets after the start; what a running session keeps, completion under faults, and the sector it reports |
| Specimen | one image worked through by hand |

Loops that update variables are methods and classes, each proved to follow a function on values;
the laws are about those functions. Unsigned C types are subset types, so an assignment is a proof
that nothing wraps, and every place where the source does wrap says so (`Wrap32`, `Wrap64`). A
device carries a script of outcomes for its accepted writes: an error may leave any bytes inside
its own target range, and quantifying over scripts quantifies over all fault behaviours. Files and
buffers are shorter than 2^62 bytes.

## Results the code's own description does not lead one to expect

- A committed direct run whose plan has an entry that is not a whole number of media blocks leaves
  the entry loop by `break`, reaches the flush and returns the flush status: with a working
  FlushBlocks it reports success for a partly written image (`DirectLaws.MisalignedReportsFlush`,
  `Specimen.SuccessWithoutWriting`). `DirectLaws.CommitReplays` says exactly when success means the
  whole plan: if and only if every entry is aligned.
- A payload answer carries 16 bits of a device error, so an error that is zero there is acknowledged
  as success before the last packet (`SessionLaws.ProgressAnswer`, `Specimen.FaultUnreported`). Only
  the device's own codes can be zero there (`StreamRuns.SilentIsScripted`), and if none of them is, no
  answer to a payload packet misleads the host in any session (`RunningContext.HostNeverMisled`). The
  answer to a packet that announces completion cannot mislead it on any device
  (`PayloadMessages.CompletionExactly`). Acknowledgements of header packets can
  (`Specimen.SplitHeaderNeverStarts`).
- A fault in the last entry is never recovered with a success: the call that repairs it runs on behind
  the end of the plan and reports a bad buffer size, with the disk right and flashing done
  (`StreamRuns.LastRepairReported`, `Specimen.RepairIsRefused`). A retry is reported as a success
  exactly if the payload reaches as far as its bytes (`StreamRuns.SucceedsExactly`).
- The host's header builder announces the end of its own chunk as the total, so the device takes the
  first packet for the whole transfer. Flashing starts with that packet or never, and if never, the
  rest is acknowledged all the same (`HeaderTransfer.BuilderStartsAtOnceOrNever`,
  `Specimen.SplitHeaderNeverStarts`).
- A header packet at offset zero restarts a transfer only if its chunk and the bytes of the abandoned
  transfer together stay within the new total, because the overrun test comes before the restart
  (`HeaderTransfer.RestartRefused`, `Specimen.RestartIsRefused`).
- The running flash context reads its descriptors from the session's header buffer, which a later
  header packet overwrites (`LateHeaders.LateHeaderOverwrites`, `Specimen.LateHeaderMovesEntry`).
  `LateHeaders.HeaderStaysExactly` says for every message whether the context goes on reading the same
  header; the laws of whole sessions are about runs of such messages.

## Model

| member | source | states |
|---|---|---|
| Bytes.AlignUp | src/uefi_min.c:175-182 | for any alignment, also not a power of two: without wrap the result is a multiple, not below the value and less than one alignment above it |
| Bytes.AlignUpLeast | src/uefi_min.c:175-182 | no multiple of the alignment lies between the value and the result |
| Bytes.Be32 | src/uefi_min.c:168-173 | the four bytes written read back as the value |
| Bytes.Be16 | src/uefi_min.c:163-166 | the two bytes written read back as the value |
| Bytes.ByteOrders | src/uefi_min.c:143-161 | the little-endian readers are the mirror image of the big-endian ones |
| Memory.MemCpy | src/uefi_min.c:10-17 | exactly the target range takes the source bytes |
| Memory.MemSet | src/uefi_min.c:19-25 | exactly the first n bytes take the value |
| BlockIo.FileHandle.ReadAt | src/ffu.c:156-182 | seek and read give the exact range or fail: end of file for a short read, device error past the end |
| BlockIo.BlockDevice.Write | src/ffu.c:788-790 | the device object moves as the device function the laws are about |
| StreamLaws.DeviceWrite | src/ffu.c:788-790 | a refused request changes nothing, an accepted one writes its range, a failed one changes bytes of its range only |
| BlockIo.SpliceJoin | src/ffu.c:720-741 | two adjacent writes are one |
| FfuParser.FfuParse | src/ffu.c:193-384 | the file parser's loops, with 64-bit cursors that never wrap, compute the format function |
| FfuParser.FfuParseSecurity | src/ffu.c:209-228 | security header and the first aligned cursor, with the 32-bit shift of the chunk size |
| FfuParser.FfuParseImage | src/ffu.c:230-250 | image header and manifest, with the 32-bit sum that moves the cursor |
| FfuParser.FfuParseValidation | src/ffu.c:252-264 | the validation loop skips each descriptor and the seven sizes it names |
| FfuParser.FfuParseStoreHead | src/ffu.c:277-310 | store header in both versions, and its refusals |
| FfuParser.FfuParseDescriptors | src/ffu.c:319-352 | the descriptor loop appends one entry per record with its relative payload offset |
| FfuParser.FfuParseStore | src/ffu.c:266-362 | one turn of the store loop |
| FfuParser.FfuParseHeaderBytes | src/ffu.c:386-591 | the buffer parser's loops and additional bounds checks compute the same format function for buffers |
| FfuParser.FfuParseHeaderBytesImage | src/ffu.c:420-448 | the buffer form of the image header, with its two cursor checks |
| FfuParser.FfuParseHeaderBytesValidation | src/ffu.c:450-465 | the buffer form of the validation loop, checking each new cursor |
| FfuParser.FfuParseHeaderBytesStoreHead | src/ffu.c:478-514 | the buffer form of a store header, checking the cursor behind the device path |
| FfuParser.FfuParseHeaderBytesDescriptors | src/ffu.c:523-559 | the buffer form of the descriptor loop, checking that all locations are in the buffer |
| FfuParser.MemRead | src/ffu.c:58-64 | the overflow-free bounds check is the plain one |
| FfuParser.PlaceStores | src/ffu.c:364-378 | the second pass computes payload bases, absolute offsets and the total |
| FfuParser.RebaseEntries | src/ffu.c:372-376 | its inner loop moves exactly one store's entries and counts their bytes |
| ParserAgreement.ParsersAgree | src/ffu.c:193-591 | the buffer parser accepts a prefix of a file if and only if the file parser accepts the file and the prefix reaches the header size; the plans differ only in the recorded size |
| ParserAgreement.ExactThreshold | src/ffu.c:386-591 | if some prefix is accepted, precisely the prefixes of at least the header size are, always with the same stores and entries |
| ParserAgreement.StoresAdvance | src/ffu.c:266-362 | the cursor only moves forward, by a store header at least per turn |
| ParserAgreement.BodyWithinHeader | src/ffu.c:364-384 | the last descriptor ends inside the header, and the header inside the file |
| PlanFacts.PlanWellFormed | src/ffu.c:266-384 | stores partition the entries, each entry is the record at its offset with block size times block count bytes, records tile their store's region, regions follow one another inside the header, the total is the sum of all byte counts |
| PlanFacts.RecordsDisjoint | src/ffu.c:319-361 | descriptor records never overlap and lie in entry order |
| PlanFacts.PlacedExactly | src/ffu.c:364-378 | the second pass in closed form, modulo 2^64 |
| PlanFacts.PayloadFollowsRule | src/ffu.c:364-384 | payload starts where the last descriptor ends, which rounded up to a block of the first store is the header size; every store's payload begins at the aligned end of the one before, and every entry's at its store's base plus the byte counts in front of it, modulo 2^64 |
| PlanFacts.EntriesContiguous | src/ffu.c:372-376 | inside a store each payload starts where the previous one ends |
| PlanFacts.PayloadAligned | src/ffu.c:364-378 | without 64-bit wrap every payload base and offset is a multiple of the store's block size and a plain sum |
| PlanFacts.StoresApart | src/ffu.c:364-378 | a store whose declared size covers its entries ends before every later store begins |
| HeaderFacts.PlanMatchesBytes | src/ffu.c:209-362 | every field of an accepted plan stands in the file at the place the format gives it, store headers on chunk boundaries; a store that declares no payload size gets the byte count of its entries, modulo 2^64; at every store the count in force, from the last version 2 header so far or 1, asked for another one, and behind the last store it does not |
| HeaderFacts.StoresRead | src/ffu.c:266-362 | the same for every store the loop reads, payload sizes and the number of stores included |
| HeaderFacts.UndeclaredStoresApart | src/ffu.c:353-378 | without 64-bit wrap a store that declares no payload size ends before every later store begins |
| ImageFormat.AcceptedExactly | src/ffu.c:193-591 | each of the two parsers accepts a byte string with a plan if and only if the string is an image with that plan: headers, validation chain, first chunk boundaries, store counts, records, payload rule and header size, stated over the whole plan without a parser |
| ImageFormat.AcceptedIsDescribed | src/ffu.c:193-591 | one half, for either parser: what is accepted is an image with the plan it is accepted with |
| ImageFormat.DescribedIsAccepted | src/ffu.c:193-384 | the other half: every image is accepted by the file parser, with the plan that describes it |
| ImageFormat.ValidationRead | src/ffu.c:252-264 | the validation loop ends where a chain of descriptors ends that each skip 28 bytes and the seven sizes in them |
| ImageFormat.StoresFollow | src/ffu.c:266-281 | every store header is looked for on the first chunk boundary behind the validation data or the records of the store before |
| FormatRefusals.SecurityRefused | src/ffu.c:209-227 | the status of an image whose security header is not good, in the order of the checks, for both parsers |
| FormatRefusals.ImageRefused | src/ffu.c:230-250 | the same for the image header behind a good security header |
| FormatRefusals.ValidationRefused | src/ffu.c:450-465 | a validation descriptor is unreadable, leads out of the buffer, or is skipped with its seven sizes |
| FormatRefusals.StoreRefused | src/ffu.c:467-513 | the status of a store whose header on the next chunk boundary, or a record behind it, fails a check |
| FormatRefusals.RecordRefused | src/ffu.c:523-545 | the status of a descriptor record that fails a check, in their order |
| FormatRefusals.LayoutRefused | src/ffu.c:379-384 | errors of the first pass are the parser's own, and the last check is on the header size |
| StreamFlash.FfuStreamFlash.constructor | src/main.c:1080-1080 | a context starts zeroed |
| StreamFlash.FfuStreamFlash.WriteCompletedEntry | src/ffu.c:768-797 | the location loop writes through the device and moves last_sector as the machine does, and changes nothing else |
| StreamFlash.FfuStreamFlash.Collect | src/ffu.c:867-868 | the chunk lands behind what was received |
| StreamFlash.FfuStreamFlash.TakeTurn | src/ffu.c:854-877 | one turn of the payload loop |
| StreamFlash.FfuStreamFlash.EndTurn | src/ffu.c:870-877 | a complete entry is written and the next one begins, or the turn fails and the entry stays |
| StreamFlash.FfuStreamFlash.Payload | src/ffu.c:848-883 | the payload loop, terminating although a retry takes no byte |
| StreamFlash.FfuStreamFlash.Start | src/ffu.c:799-837 | initialisation on the front of the caller's buffer, zeroed again on failure |
| StreamFlash.FfuStreamFlash.Install | src/ffu.c:823-836 | the fields of a started context, with a zeroed entry buffer |
| StreamFlash.FfuStreamFlash.LargestEntry | src/ffu.c:814-818 | the buffer size is the largest byte count |
| StreamFlash.MaxBytes | src/ffu.c:814-818 | no entry is larger, and some entry is that large |
| StreamFlash.QuotientBound | src/ffu.c:783-787 | a location's byte address and block number fit 64 bits |
| StreamFlash.Run | src/ffu.c:854-878 | every turn keeps the machine able to take the next, on any device |
| StreamLaws.EntryWriteEffect | src/ffu.c:768-797 | whatever the device does the medium changes only inside the entry's own ranges, and a successful write leaves exactly the entry on the base image, whatever faults left there before |
| StreamLaws.DryWriteEffect | src/ffu.c:788-793 | a dry run changes nothing |
| StreamLaws.NeverShort | src/ffu.c:757-766 | in a sound context no location read fails and the entry fits the buffer |
| StreamLaws.RunTracks | src/ffu.c:848-883 | one call under any faults: the medium is the replay of the completed entries except inside a pending one's ranges, the buffer is the unflushed tail, every byte is accounted for |
| StreamLaws.WriteImage | src/ffu.c:870-876 | writing a completed entry advances the replay by one entry |
| StreamRuns.InitTracks | src/ffu.c:799-837 | initialisation establishes that invariant with nothing consumed |
| StreamRuns.InitAccepts | src/ffu.c:799-837 | accepted exactly if the device is writable, the header parses and no entry exceeds a packet |
| LocationFacts.InitRefusals | src/ffu.c:806-822 | the status of a refused initialisation: the device, then the header, then an entry beyond 0x1FFC18 bytes; and the context is zeroed |
| StreamRuns.RunsTrack | src/ffu.c:848-883 | the invariant over every sequence of calls and every fault script |
| StreamRuns.DoneIsConsumed | src/ffu.c:885-887 | done if and only if every described byte has been consumed and no retry is outstanding |
| StreamRuns.RetryRepairs | src/ffu.c:854-877 | after a failed write the next nonempty call takes no byte before it has rewritten the whole entry, and success leaves the disk on which it never failed |
| StreamRuns.LastRepairReported | src/ffu.c:854-883 | once the last entry's write has failed every later nonempty call reports an error; the one that repairs it leaves the plan done and the full replay on the disk, and is refused as too long |
| StreamRuns.SucceedsExactly | src/ffu.c:848-883 | where every location fits and the device does not fault, a call succeeds if and only if its bytes do not reach beyond the described payload, also with an entry pending from an earlier fault |
| StreamRuns.RefusedRemainder | src/ffu.c:848-883 | of a refused call the bytes up to the end of the failed entry have entered; sending the others completes it, sending all of it again repeats them |
| StreamRuns.SilentIsScripted | src/ffu.c:768-883 | a payload call fails with a code that is zero in its low 16 bits only if the device itself returned that code |
| StreamRuns.EndSectorIsLast | src/ffu.c:794-794 | last_sector is the block in front of the end of the bytes written |
| LocationFacts.WriteReports | src/ffu.c:768-797 | whatever the device does last_sector is that of the last location written, block times block size in media blocks, and it is the entry's last one exactly if the write succeeds |
| LocationFacts.FeedReports | src/ffu.c:848-883 | over every payload call last_sector is that of the last completed entry, or of a location of the entry whose write has failed; the final state is set exactly by a call that succeeds and completes the plan |
| LocationFacts.InitReports | src/ffu.c:823-836 | a started context has reported no sector |
| StreamRuns.RunAppend | src/ffu.c:854-878 | feeding a + b is feeding a and, unless that failed, b |
| StreamRuns.QuietWrite | src/ffu.c:768-797 | without faults an entry write stops at the first location the geometry refuses and reports it |
| StreamRuns.ErrorSticks | src/ffu.c:854-878 | without faults an error is final: repeating the call changes nothing |
| StreamRuns.ChunkingIndependence | src/ffu.c:848-883 | on any device the calls of a split all succeed exactly if one call on the whole stream does, and then leave the same disk, position, buffer and last sector; without faults they leave the same in every case |
| StreamRuns.FittingRunSucceeds | src/ffu.c:848-883 | if every location fits and the device does not fault, no call fails until the payload is exhausted |
| DirectFlash.FfuFlashToBlockIo | src/ffu.c:660-755 | the triple loop follows the model, including the way out by break and by jump |
| DirectFlash.FlashEntryLocations | src/ffu.c:692-742 | the location loop |
| DirectFlash.FlashLocationChunks | src/ffu.c:720-741 | the chunk loop |
| DirectFlash.AdmitLocation | src/ffu.c:699-719 | the checks on a location |
| LocationFacts.FitsInHeader | src/ffu.c:699-719 | a location fits if and only if its words in the header say so: access method 0, block times block size and byte count in whole media blocks, the end on a writable medium |
| LocationFacts.RefusedIsUnwritten | src/ffu.c:692-719 | a location refused by the words in its record, a non-zero access method among others, is written by neither flasher in any run, and both return the reason |
| LocationFacts.DeviceSaysWhy | src/ffu.c:788-793 | where the device refuses the stream's write or fails in it, its own status is the reason |
| LocationFacts.DryRunSaysWhy | src/ffu.c:666-719 | the status of a dry run that fails, for the first entry or location refused, and of any run on a device that cannot be written |
| LocationFacts.DryRunInBytes | src/ffu.c:660-755 | a dry run succeeds if and only if every location, as its words in the header have it, is absolute, in whole blocks and on a writable medium |
| DirectLaws.ChunkIsWhole | src/ffu.c:674-726 | the zero-chunk error is unreachable: what remains of an aligned entry always yields a chunk of whole blocks, all of it or as many as go into a mebibyte or one larger block |
| DirectLaws.RequestsTile | src/ffu.c:720-741 | the requests for a location tile its blocks in order, without gap or overlap |
| DirectLaws.ChunksPerform | src/ffu.c:720-741 | a committed chunk loop performs exactly those requests |
| DirectLaws.ChunksEffect | src/ffu.c:720-741 | the chunks together are one whole-entry write |
| DirectLaws.AdmitIsFit | src/ffu.c:699-719 | an aligned location is admitted exactly if the stream can locate it and the device would take the whole entry there |
| DirectLaws.LocationsEffect | src/ffu.c:692-742 | a successful location loop has landed every location with the file's payload |
| DirectLaws.CommitReplays | src/ffu.c:660-755 | a committed run that reports success has replayed exactly the entries before the first misaligned one: the whole plan if and only if all are aligned |
| DirectLaws.CommitLeaves | src/ffu.c:660-755 | however a committed run ends, on any device and with any file, it leaves the replay of some number of fitting entries, except inside the ranges of the next one |
| DirectLaws.GoodRunReportsFlush | src/ffu.c:685-751 | a committed run that is good up to the first misaligned entry, or to the end, returns exactly the flush status, and has written exactly those entries |
| DirectLaws.MisalignedReportsFlush | src/ffu.c:688-751 | a misaligned plan is reported as the flush status with the rest unwritten |
| DirectLaws.DryRunChecksPlan | src/ffu.c:660-755 | a dry run never changes the disk and succeeds exactly if the device is writable and every location is absolute, aligned and on the medium |
| DirectLaws.DryRunPredictsCommit | src/ffu.c:660-755 | after a successful dry run only a file read, a device fault or the flush can make the commit fail |
| SameDisk.LocationsHalt | src/ffu.c:692-742 | without faults the direct flasher lands what fits and stops at what does not |
| SameDisk.DirectHalts | src/ffu.c:660-755 | over a whole plan it leaves the medium halted at the first entry that does not fit |
| SameDisk.CompleteHalts | src/ffu.c:768-797 | the stream stops an entry at the same location |
| SameDisk.StreamHalts | src/ffu.c:848-887 | fed the described payload it leaves the same medium, and is done exactly if everything fits |
| Proto.BuildSecureHeaderRequest | src/ufp_proto.c:42-65 | the whole head of a header packet, or nothing written |
| Proto.BuildSecurePayloadRequest | src/ufp_proto.c:81-101 | the whole head of a payload packet, or nothing written |
| Proto.BuildSecureStatusResponse | src/ufp_proto.c:196-216 | the whole status response, or nothing written |
| Proto.BuildAsyncStartResponse | src/ufp_proto.c:143-156 | the whole response, or nothing written |
| Proto.BuildAsyncWriteStatus | src/ufp_proto.c:158-176 | the whole response, or nothing written |
| Proto.BuildAsyncEndResponse | src/ufp_proto.c:178-194 | the whole response, or nothing written |
| AnswerFields.HeaderHeadFields | src/ufp_proto.c:42-65 | where the builder puts every field of the head of a header packet |
| AnswerFields.PayloadHeadFields | src/ufp_proto.c:81-101 | and of a payload packet |
| AnswerFields.StatusFields | src/ufp_proto.c:196-216 | every field of the status response, read back from its offset |
| AnswerFields.AsyncStartFields | src/ufp_proto.c:143-156 | the status of a start response, at byte 7 |
| AnswerFields.AsyncWriteFields | src/ufp_proto.c:158-176 | count, start, write status, last sector and status of a write response, at bytes 9, 13, 17, 21 and 25 |
| AnswerFields.AsyncEndFields | src/ufp_proto.c:178-194 | write status, last sector and status of an end response, at bytes 9, 13 and 17 |
| AnswerFields.LegacyFields | src/main.c:825-833 | status, count and specifier of a legacy answer, at bytes 5, 10 and 14 |
| AnswerFields.ShortFields | src/main.c:240-247 | status and specifier of a short answer, at bytes 6 and 8, and no subblock |
| AnswerFields.ParserVerdict | src/ufp_proto.c:103-141 | the host's verdict on any bytes at all, and the fields it takes from them |
| Proto.StatusRoundTrip | src/ufp_proto.c:103-141 | the host's parser reads back every field of the device's status response and reports exactly its status, or its final state |
| Session.Handle | src/main.c:1088-1485 | every message keeps received <= size <= capacity, capacity a multiple of 1 MiB up to 128 MiB, copies inside the buffer, and the context usable |
| Session.Serve | src/main.c:1088-1485 | so does every sequence of messages |
| Session.Begin | src/main.c:1381-1395 | flashing starts from exactly the first n bytes of the header buffer, which the context goes on sharing |
| Session.Grown | src/main.c:1347-1367 | a larger buffer holds what is needed |
| Session.SizeNeverOverflows | src/main.c:1181-1187 | the overflow test of the sector writers never fires |
| MessageTables.OtherMessages | src/main.c:1095-1165 | hellos, strange messages, questions, mode switches and the reboot request: the one answer each, nothing changed, and which of them end the session |
| MessageTables.SecureMessageRefused | src/main.c:1224-1242 | the status of a secure-flash message that is too short, in no known protocol, without exactly one subblock, or with an unknown one |
| MessageTables.PayloadForms | src/main.c:1403-1451 | for each of the three subblocks, with its data offset, overhead and protocols written out: a payload packet is refused with the status of the first check that fails and changes nothing, or delivers exactly its data |
| MessageTables.DeliveryAnswer | src/main.c:1452-1478 | every field of the answer to delivered data: status, specifier, last sector and final state; what changes; and when the session ends |
| HeaderPackets.HeaderRefused | src/main.c:1255-1359 | every header message, ready or not, that fails a check or asks for more than 128 MiB gets one short answer with the status of that check, never a success, and stores nothing |
| HeaderPackets.RefusedExactly | src/main.c:1255-1359 | these are exactly the header messages without a placement, or with too large a one |
| HeaderPackets.HeaderStored | src/main.c:1320-1400 | every other header message, ready or not: the bytes held are laid over with its data, the buffer grows to whole mebibytes if it must, and the answer is an acknowledgement or what initialisation on the whole header says |
| SectorWrites.AsyncWriteAnswer | src/main.c:1178-1208 | the answer to an asynchronous write has the packet's count and start and the status from before; behind it the status is that of the write, with its device outcome, or 8 |
| SectorWrites.AsyncWriteLands | src/main.c:1184-1208 | without faults the data behind byte 64 takes the place of the blocks named at byte 12 and counted at byte 16, exactly if there is enough of it, they are on the medium, byte 25 is not 1 and the run is committed |
| SectorWrites.AsyncStartAnswer | src/main.c:1167-1177 | a start is refused with 8 unless bytes 8 and 9 are 1 and 0, and otherwise resets the status |
| SectorWrites.AsyncEndAnswer | src/main.c:1209-1214 | an end reports the status and resets it |
| SectorWrites.AsyncOtherwise | src/main.c:1215-1217 | any other asynchronous message is answered as unknown |
| SectorWrites.LegacyAnswer | src/main.c:835-868 | the legacy writer answers every write with its own outcome, on any device |
| SectorWrites.LegacyWriteLands | src/main.c:846-866 | without faults it writes the data behind byte 64 to the blocks named at byte 11 and counted at byte 15 |
| SessionLoop.SecureFlashLoop.constructor | src/main.c:1066-1086 | the loop's variables at the start |
| SessionLoop.SecureFlashLoop.OnHeaderV1 | src/main.c:1255-1304 | the one-piece header packet updates buffer, sizes and context as the step function says |
| SessionLoop.SecureFlashLoop.OnHeaderV2 | src/main.c:1274-1346 | the chunked header packet |
| SessionLoop.SecureFlashLoop.TakeHeaderV2 | src/main.c:1315-1346 | the same behind the checks of total and options |
| SessionLoop.SecureFlashLoop.StoreChunk | src/main.c:1347-1400 | growth, copy and completion |
| SessionLoop.SecureFlashLoop.Reserve | src/main.c:1347-1367 | the buffer holds what is needed, or nothing changes and the capacity asked for is too large |
| SessionLoop.SecureFlashLoop.Grow | src/main.c:1347-1367 | a fresh buffer with the received bytes in front |
| SessionLoop.SecureFlashLoop.PasteChunk | src/main.c:1368-1370 | the copy, also under a running context that shares the buffer |
| SessionLoop.SecureFlashLoop.CopyChunk | src/main.c:1368-1376 | the copy and the sizes behind it |
| SessionLoop.SecureFlashLoop.BeginFlash | src/main.c:1381-1395 | initialisation and its answer |
| SessionLoop.SecureFlashLoop.DeliverData | src/main.c:1452-1478 | payload, completion and the answer built for it |
| SessionLoop.SecureFlashLoop.OnPayload | src/main.c:1403-1451 | the checks of the three payload forms |
| SessionLoop.SecureFlashLoop.OnSecure | src/main.c:1220-1484 | the secure-flash dispatch |
| SessionLoop.SecureFlashLoop.OnAsync | src/main.c:1166-1219 | asynchronous start, write and end |
| SessionLoop.SecureFlashLoop.RecordWrite | src/main.c:1184-1208 | the write after its answer |
| SessionLoop.SecureFlashLoop.OnLegacy | src/main.c:835-868 | the legacy sector writer |
| SessionLoop.SecureFlashLoop.OnMessage | src/main.c:1095-1484 | one turn of the loop |
| SessionLoop.SecureFlashLoop.Run | src/main.c:1088-1485 | the loop over the messages received |
| SessionLaws.QueriesAreTransparent | src/main.c:1102-1165 | deleting the queries from any run changes neither its state nor the answers to the other messages |
| SessionLaws.CompletionAgreement | src/main.c:1452-1479 | the host accepts the answer to data delivered at progress 100 exactly if the device was ready, the packet raised no error and every entry is flashed; the device leaves its loop in exactly that case |
| PayloadMessages.CompletionExactly | src/main.c:1403-1479 | the same over every progress-100 payload packet, which must also pass its checks |
| SessionLaws.FailedAndDone | src/ffu.c:854-887 | only an overrun can fail and leave the plan done |
| SessionLaws.ProgressAnswer | src/main.c:1452-1470 | an earlier answer is accepted exactly if the device was ready and the error's low 16 bits are zero |
| SessionLaws.ProgressAnswerHonest | src/main.c:1452-1470 | on a device none of whose errors is zero in its low 16 bits the answer is accepted exactly if the device was ready and the packet raised no error; on any device an accepted failure carries a code the device itself returned |
| RunningContext.HostNeverMisled | src/main.c:1088-1485 | on such a device, after any messages, the answer to a payload packet, valid or not and with any progress, is accepted exactly if the packet passes its checks, the device was ready, no error was raised and, at progress 100, every entry is flashed |
| SessionLaws.ServeAppend | src/main.c:1088-1485 | a run over two sequences is the second run after the first |
| HeaderTransfer.SplitsReassemble | src/main.c:1274-1400 | every split of a header: after any packet but the last flashing has not started and the context is untouched, each of them is acknowledged with status 0, and the last one starts flashing from exactly the original bytes |
| HeaderTransfer.FirstPacket | src/main.c:1320-1380 | the first packet drops an unused buffer and allocates for the whole transfer, whatever an abandoned transfer has left |
| HeaderTransfer.RestartRefused | src/main.c:1291-1295 | unless the bytes of an abandoned transfer and the new chunk together overrun the new total: then the packet is refused and nothing changes |
| HeaderTransfer.NextPacket | src/main.c:1320-1380 | every further packet lands behind the ones before |
| HeaderTransfer.OnePieceStarts | src/main.c:1255-1400 | a one-piece header packet starts flashing from exactly its bytes, whatever the buffer held before |
| HeaderTransfer.HeaderFieldsDecode | src/main.c:1274-1290 | the builder's layout decodes to total, offset and chunk |
| HeaderTransfer.InitThreshold | src/ffu.c:799-837 | initialisation succeeds on a prefix exactly if it reaches the header size |
| HeaderTransfer.BuilderNeedsOnePacket | src/ufp_proto.c:42-65 | a packet made by the builder is a whole transfer for the device: flashing starts if and only if it reaches the header's end |
| HeaderTransfer.BuilderStartsAtOnceOrNever | src/ufp_proto.c:42-65 | at any point of a transfer in the builder's packets flashing has started if and only if the first of them reached the header's end; if not, all later ones of a transfer up to 128 MiB are acknowledged with status 0 |
| LateHeaders.LateHeaderOverwrites | src/main.c:1255-1400 | what each late header packet of either form does to the running context: nothing if it fails a check or is too large, the end of sharing if the buffer grows, and otherwise an acknowledgement and its chunk over the header the context reads |
| LateHeaders.HeaderStaysExactly | src/main.c:1088-1485 | after any message a running context reads the same header from the live buffer if and only if the message is no stored header packet, or needs no growth and repeats the bytes it falls on |
| RunningContext.HandleSecures | src/main.c:1088-1485 | every message but a harmful late header keeps the running context sound |
| RunningContext.ReachableNeverShort | src/ffu.c:757-766 | in every reachable session without harmful late headers no location is missing and no entry outgrows its buffer |
| RunningContext.RunsOnTrack | src/main.c:1088-1485 | every session without harmful late headers and sector writes, on any device: the medium is the replay of the completed entries from exactly the payload bytes that entered, except inside a pending entry's ranges |
| RunningContext.CompletionReplays | src/main.c:1452-1479 | completion under faults: a committed session that ends by completion has left exactly the replay of the whole plan in its header, whatever the device did before |
| RunningContext.CompletionFlashesFile | src/main.c:1452-1479 | if the header is a file's and the bytes that entered are the payload the file describes, that is the full replay of the file |
| RunningContext.RemainderCompletes | src/main.c:1452-1470 | of a refused packet the bytes up to the end of the failed entry have entered; a packet with exactly the others, once taken, makes up for it |
| ReportedSectors.HandleReports | src/main.c:1088-1485 | every message but a harmful late header keeps a running context's last_sector that of what it last wrote |
| ReportedSectors.CompletionNamesLastSector | src/main.c:1461-1478 | whatever the device has done on the way, the answer that completes a session names the last block of the last location of the last entry |
| AsyncLaws.StatusIsHistory | src/main.c:1166-1219 | the status variables are what looking back over the history finds |
| AsyncLaws.AsyncStatusLags | src/main.c:1166-1219 | every write or end answer reports the latest earlier write since the last reset and the last sector of the latest successful one, never the message it answers |
| AsyncLaws.IdleOtherwise | src/main.c:1088-1485 | messages other than header and payload packets touch only the asynchronous status, and the disk only as sector writes |
| AsyncLaws.AsyncDisk | src/main.c:1184-1208 | on any device, among any messages but payload packets and legacy writes, the disk is what the acceptable asynchronous writes make of it one by one, each with the device's own outcome |
| AsyncLaws.AsyncTraffic | src/main.c:1184-1208 | without faults its image is the fold of the acceptable writes, and untouched in a dry run; asynchronous traffic and queries never end a session |
| PayloadMessages.BadPayloadIdle | src/main.c:1403-1451 | a payload packet that fails a check changes nothing |
| PayloadMessages.BadPayloadRejected | src/main.c:1403-1451 | and the host's parser rejects its answer |
| Proto.ShortRejected | src/ufp_proto.c:103-141 | no short answer is ever accepted as a payload answer |
| EndToEnd.PacketDelivers | src/main.c:1416-1451 | a payload packet in any of the three forms passes every check and delivers exactly its data |
| EndToEnd.BuiltPacketDecodes | src/ufp_proto.c:81-101 | what the builder lays out is such a packet |
| EndToEnd.PacketsFeed | src/main.c:1452-1479 | a run of payload packets feeds the context the data of the packets it handles and touches nothing else; it handles all of them unless one at progress 100 completes the plan |
| EndToEnd.SessionHalts | src/main.c:1243-1480 | a whole session leaves the medium where flashing stops, and completes exactly if it does not stop |
| EndToEnd.SessionRefinesDirect | src/main.c:1243-1480 | a header in any chunked split or in one piece, and any packets, leave exactly the disk a committed direct run leaves; the session completes and says so if and only if everything fits, and then the disk is the full replay and the direct run succeeds |
| PacketPlan.CountPayloadPackets | src/ffu.c:625-639 | the greedy loops count the described bytes in packets, rounded up |
| PacketPlan.FfuPacketDryRun | src/ffu.c:617-641 | header packets and payload packets plus one, from the total of the plan |
| PacketPlan.GreedyCount | src/ffu.c:625-639 | the greedy split has that many packets |
| PacketPlan.GreedyTransferSends | src/ffu.c:617-641 | its packets, built as the host builds them, pass every check, decode to the same bytes and make up a whole transfer |
| Specimen.FileIsFlashable | src/ffu.c:193-384 | the premises of the end-to-end theorem are met by a concrete image |
| Specimen.SuccessWithoutWriting | src/ffu.c:688-751 | a concrete accepted image for which a committed run reports success and writes nothing, while the dry run refuses it |
| Specimen.FaultUnreported | src/main.c:1452-1470 | a concrete session whose device refuses a write and whose host is told status 0 |
| Specimen.RepairIsRefused | src/ffu.c:854-883 | a concrete fault in the last entry whose repair is refused as too long, with the disk right and flashing done |
| Specimen.LateHeaderMovesEntry | src/main.c:1368-1400 | a concrete session in which a second header packet is acknowledged after the start and the payload lands on the block it names |
| Specimen.RestartIsRefused | src/main.c:1291-1295 | a concrete transfer that cannot be begun again from offset zero |
| Specimen.SplitHeaderNeverStarts | src/ufp_proto.c:42-65 | a concrete header sent in two packets of the builder: both acknowledged, flashing not started |

## Left out

- USB function driver, endpoint 0 set-up and event pump: receiving is the next message of a sequence, sending is an emitted reply; a receive error ends the sequence, send errors are ignored as in the loop.
- File opening, path conversion, handle lookup, options and EfiMain: UEFI plumbing.
- Console output and the plan summary: user interface.
- Replies to information, GPT, telemetry, parameter, unlock, log and common-extension messages: one opaque reply each. The option table and mode value that parameter writes change are read by parameter messages only.
- UEFI variable access: foreign calls.
- Memory allocation: growth of the store and entry lists is appending, allocations succeed, and a freed buffer that a running context still points to keeps its bytes in the model, where the program would read freed memory.
- 32-bit width of store_count and entry_count: lists have their true length; a file would need more than 2^32 descriptor records to tell.
- StreamRuns.DoneIsConsumed: the clause about total_payload_bytes assumes fewer than 2^32 entries, so that the 64-bit total is the true sum.
- RunningContext.RunsOnTrack: excludes sessions that also write sectors, asynchronously or by the legacy writer, because those writes go to the same medium; AsyncLaws.AsyncDisk describes the medium of sessions that only write sectors.
- Media changes, media identifiers and buffer alignment of the block device: the medium stays the same through a run.
- The result of FlushBlocks at the end of a session, which the loop ignores.
- Contents of signature, catalog, hash table and validation descriptors: the code checks sizes and magic only.
- The switch response and secure header response parsers: two fields read from a fixed place.
