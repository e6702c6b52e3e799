# rf24boot, verified

A Dafny model of two things that rf24boot lives by, and proofs about them.

**Flow control between host and dongle.** The host library streams packets over USB into a small ring
buffer on the dongle and spends credits that it learns from status reports, which are asynchronous and may
be out of date. If it spends too many, the ring silently drops its oldest packet. The model has the host
adaptor with its transfers, the dongle firmware with its rings, the radio's FIFOs, and the USB pipe between
them as one state machine (`protocol.dfy`); a run interleaves, in any order, submissions, executed control
requests, completion callbacks, main-loop passes, posted and polled reports, and what the radio does. The
theorems are about whole runs, from the mode switch on.

**Flashing, dumping and verifying an image.** The host cuts a file into addressed chunks, batches and pads
them; the boot loader dispatches them and assembles pages in a buffer. The theorems say what the device's
memory holds afterwards, byte by byte, and what a dump and a verification make of it.

## How it is laid out

| file | content |
|---|---|
| types, transfers, host, dongles | the sources' handlers as functions on values: a transfer, the adaptor, the dongle with its radio |
| protocol | states, steps, what applications may do, runs |
| writephase, readphase | what each step keeps |
| flowcontrol, conservation, retirement, progress | the results about runs |
| fairshare, ackpayloads | in which order packets go out; what a report promises when both rings are in use |
| overruns, overlaps, exactness | the runs in which guarantees fall; exactly when each guarantee holds |
| ring, usbapp, iotransfer, libusbadaptor | the classes whose methods change state in place and carry out those functions |
| framing, chip, device | command packets; page buffer and partitions; the boot loader |
| restore, partitiontable, restored | a restore in closed form; the object that performs it; the memory it leaves |
| readback, endtoend | dump and verification; everything together |

A class method that changes state is tied by its `ensures` to a function on values (`View() == F(old(View()))`);
the lemmas are about those functions. Where the original calls `updateStatus(..., true)` on a transfer, which
calls back into the adaptor, the method here returns a flag and the adaptor acts on it at the same point.

Assumptions about the surroundings:

- Control requests are executed and completed in order (section 5.5 of the USB 2.0 specification) and do not fail;
  the library throws when they do.
- An interrupt transfer picks up the last posted report when it is polled (section 5.7 of the USB 2.0 specification).
- `rf24_queue_push` takes the packet or answers -EAGAIN; how many it takes before that is free. In stream mode a
  started write ends with TX_DS or MAX_RT, at any time; flushing the radio clears both flags.
- A deadline passes or not whenever the code asks the clock (`expired`).
- Between the host and the boot loader the radio is in order and loses nothing.

## What was found

- The ring never overflows **exactly when** applications submit no empty transfer and submit nothing while a mode
  switch is under way (`NeverDropsExactlyWhen`). An empty transfer asks for a report with no transfer current
  (librf24pp/rf24adaptor.cpp:131-134), so left-over credits can be spent while the report that renews them is under
  way; a second switch asks for a report with writes pending (librf24pp/rf24adaptor.cpp:248-254). Both directions
  hold for each ring size from 1 to 255, in each transmitting mode, and whether or not runs are held to the firmware's
  schedule, in which the main loop serves the radio after every control request and the radio takes
  three packets.
- A synchronous transfer completes only when dongle and radio are drained **exactly when** the same two things are
  ruled out (`SyncSafeExactlyWhen`, again for each ring size and either schedule). An empty synchronous transfer
  completes at once, whatever is still queued; a restore without padding closes with one (`Restore`). And after two
  submissions during a switch a non-empty one completes on a report that is older than its packet.
- A deadline is looked at only when a report says idle (`DeadlineRetires`, `StepRetires`): in a
  transmitting mode no transfer times out as long as a packet waits in the dongle or in the radio (`IdleIsDrained`).
- Reads never come back empty **exactly when** ring and last report were empty, and the dongle not already
  listening, when the host turned to reading, and nothing was submitted while it turned
  (`ReadsSafelyExactlyWhen`): RQ_MODE flushes the ring but does not post, and a second RQ_MODE flushes it under a
  read that is already on the wire.
- The boot loader's page buffer is invisible for chunks in order with rewrites anywhere in the page under way
  (`PageBufferRefinesDirectWrites`). In a page that is complete an earlier chunk is lost unless it changes nothing
  (`LateChunkIsLost`).
- A boot loader that is asked to read stops answering **exactly when** the request stays inside the partition
  (`AnswerEndsExactlyWhen`); otherwise it sends empty replies for good.
- A restore without padding repeats the last chunk behind the data **exactly when** the file ends inside a batch
  (`ImageIsWhole`).
- A restore writes inside the partition **exactly when** the file leaves at least one chunk of it free
  (`InsideExactlyWhenRoomLeft`): padding always adds a page to an aligned file, beyond the end if the file fills
  the partition.
- A verification does not look at the last `iosize` bytes (`Verify`).
- The header allows chunks of 26 bytes, but a chunk survives **exactly when** it has at most 25
  (`ChunksSurviveUpTo25`): the host sends sizeof(struct rf24boot_data) bytes of the enclosing command.
- RQ_CONFIG leaves the rings well formed **exactly when** each old `start` is below that ring's new size (`Configure`).
- Comments that the code does not bear out, where the model follows the code: cb.c says that one slot is kept open,
  and cb.h calls `count` the index to write at; it is the number of elements and all slots are used. The correction
  of a pad of 0 (librf24pp/rf24ptable.cpp:52-53) comes after the header was copied and has no effect.

## Model

| member | source | states |
|---|---|---|
| FlowControl.RunKeeps | librf24pp/rf24adaptor.cpp:109-189 | the invariant (quiet, switching, switched or settled) holds in every state of every run |
| FlowControl.NoOverflow | src/cb.c:43-53 | in every state of every write run the next write finds a free slot, and credits, writes on the wire and ring contents never exceed the ring |
| FlowControl.StepKeeps | librf24pp/rf24libusbadaptor.cpp:194-220 | each step of host, dongle, radio or application keeps the invariant, the mode switch included |
| WritePhase.StepKeeps | src/uisp-app.c:101-160 | each step keeps the settled write phase: credits covered, reports truthful, ledgers balanced, a request out exactly when nothing is pending |
| WritePhase.StartWrites | librf24pp/rf24adaptor.cpp:124-180 | startTransfers turns credits into writes one for one, in order, and stops only when one of them is used up |
| WritePhase.IssueAllWrites | librf24pp/rf24adaptor.cpp:150-173 | the do-while loop issues exactly the next packets of the transfer, as many as credits allow |
| WritePhase.StatusArrivedKeeps | librf24pp/rf24libusbadaptor.cpp:177-211 | handling a report leaves the host with the reported room less what it issued at once |
| WritePhase.ProcessKeeps | src/uisp-app.c:120-159 | serving the radio loses, doubles and reorders nothing, and every truthful report stays truthful |
| WritePhase.StreamFinishKeeps | src/uisp-app.c:121-136 | accounting for a finished stream write, acknowledged or not, keeps ring, radio and reports consistent; its report still counts the packet and says how it went |
| WritePhase.ExecWriteKeeps | src/uisp-app.c:307-318 | executing a write with room appends the packet and posts a truthful report |
| Conservation.Conserved | librf24pp/rf24iotransfer.cpp:135-156 | handed to the radio, waiting in the ring, on the wire and not yet taken are together exactly the packets submitted, in order; with deadlines passed, exactly those taken |
| Conservation.RunBook | librf24pp/rf24adaptor.cpp:42-60 | the adaptor's book of transfers (retired, current, waiting) is, in order and in mode, kind, packets and counts, the list of what was submitted, and without expired deadlines all retired ones completed |
| Retirement.StepRetires | librf24pp/rf24transfer.cpp:61-70 | in every run each step retires at most the transfer at work, as completed, or as timed out and then only on an idle report after its deadline |
| Retirement.DeadlineRetires | librf24pp/rf24iotransfer.cpp:92-102 | in every run an idle report retires the transfer at work: completed if it is a synchronous write all sent and acknowledged, otherwise timed out if its deadline has passed; any other report retires nothing |
| Retirement.ReadMeansComplete | librf24pp/rf24iotransfer.cpp:127-133 | in every run a read transfer completes only on a reply, with exactly as many packets as it asked for: those it had and the one in the reply |
| Retirement.ReplyDecides | librf24pp/rf24libusbadaptor.cpp:260-290 | in every run a reply completes the read if and only if it brings the last packet asked for; one further read goes out at once if and only if nothing else is pending and the dongle says "more"; otherwise a report is asked for if nothing is pending and the read goes on |
| Conservation.SyncMeansDrained | librf24pp/rf24iotransfer.cpp:92-102 | in every run without empty transfers and without submissions during the switch, a synchronous transfer completes only on a report, when dongle and radio FIFO are empty and all its packets are gone; its write result is the fate of the last packet |
| Exactness.SyncSafeExactlyWhen | librf24pp/rf24iotransfer.cpp:35-41 | synchronous completion means drained, in every run and for each ring size, if and only if empty transfers and submissions during a switch are ruled out |
| Overruns.EmptySyncCompletes | librf24pp/rf24adaptor.cpp:127-134 | a run in which an empty synchronous transfer completes while the dongle holds a packet |
| Overlaps.OverlappingSyncCompletes | librf24pp/rf24adaptor.cpp:248-254 | a run in which a synchronous transfer submitted twice during the switch completes on a report older than its packet |
| Conservation.IdleIsDrained | librf24pp/rf24libusbadaptor.cpp:204-208 | in every state of every run a report of idleness that waits to be handled is still true: nothing is left in dongle, radio or on the wire, and all that was taken has gone over the air |
| Conservation.AsyncMeansTaken | librf24pp/rf24iotransfer.cpp:135-142 | in every run an asynchronous transfer completes on the acknowledgement of its last packet, with nothing left under way |
| Conservation.BulkSyncDelivers | src/uisp-app.c:145-159 | when the last, synchronous bulk transfer completes, the packets acknowledged over the air are all the packets submitted, in order |
| Progress.PendingIsReal | librf24pp/rf24adaptor.cpp:99-116 | in every state of every run numIosPending is the number of operations under way, and numWriting too; a current transfer has I/O pending or a request out |
| Progress.NeverStuck | librf24pp/rf24adaptor.cpp:177-180 | in every state of every run with a current transfer, the USB side has a step to take |
| Progress.CanComplete | librf24pp/rf24adaptor.cpp:109-180 | from every settled state some continuation completes the current write transfer |
| Progress.AlwaysCompletable | librf24pp/rf24adaptor.cpp:124-254 | the same from every reachable state with a current write transfer, the mode switch included |
| Progress.CanRead | librf24pp/rf24libusbadaptor.cpp:260-290 | from every settled state some continuation completes a read transfer that still waits for packets |
| Progress.ReadOfNothing | librf24pp/rf24iotransfer.cpp:127-133 | a read for no packets is never retired by anything but its deadline |
| ReadPhase.StepKeeps | librf24pp/rf24libusbadaptor.cpp:260-290 | each step keeps the settled read phase: every outstanding read is covered by a packet, the "more" fast path included |
| ReadPhase.StartReads | librf24pp/rf24adaptor.cpp:164-180 | startTransfers turns every read credit into a read on the wire |
| ReadPhase.ReadFinds | src/uisp-app.c:182-204 | every read finds a packet; the reply has the oldest one and the "more" bit is true of the ring |
| ReadPhase.FillKeeps | src/uisp-app.c:113-119 | filling the ring from the radio never overfills it, keeps the order, and stops only at a full ring or an empty radio |
| ReadPhase.CalledKeeps | librf24pp/rf24adaptor.cpp:100-107 | handling a read reply, with or without the extra read, keeps the read phase |
| Exactness.ReadCredits | src/uisp-app.c:182-204 | read credits plus outstanding reads never exceed the ring, no reply is empty, and packets reach the transfers in radio order |
| Exactness.ReadsSafelyExactlyWhen | src/uisp-app.c:167-180 | no read comes back empty in any run from a given start if and only if ring and last report were empty and the dongle not listening at the switch, and nothing is submitted during it |
| Overlaps.OverlappingReadFails | librf24pp/rf24adaptor.cpp:248-254 | from any start, a run with a submission during the switch to reading that comes to a read with the ring empty |
| Exactness.NeverDropsExactlyWhen | librf24pp/rf24adaptor.cpp:127-134 | for each ring size, no run drops a packet if and only if empty transfers and submissions during a switch are ruled out |
| Overruns.EmptyTransferDrops | librf24pp/rf24adaptor.cpp:131-134 | for each ring size, a run with empty transfers that comes to a write with the ring full, the main loop passing after every request |
| Overlaps.OverlappingSwitchDrops | librf24pp/rf24adaptor.cpp:248-254 | for each ring size, such a run with submissions during the switch |
| Rings.RingBuffer.Read | src/cb.c:21-30 | takes the oldest packet, under wrap-around; an empty ring stays as it is |
| Rings.RingBuffer.Peek | src/cb.c:32-39 | shows the oldest packet |
| Rings.RingBuffer.GetSlot | src/cb.c:43-53 | appends a slot, dropping the oldest packet of a full ring; the recursion ends |
| Rings.RingBuffer.Flush | src/cb.c:55-58 | empties the ring |
| SharedPool.Put | src/uisp-app.c:307-315 | filling a slot of one ring leaves the ring beside it in the pool alone |
| SharedPool.RunOn | src/uisp-app.c:51-61 | any operations on one of two rings in a pool act as on a bounded dropping queue and leave the other ring alone |
| SharedPool.QueueStaysBounded | src/cb.c:43-53 | such a queue never outgrows its bound |
| UsbApplication.UsbApp.ProcessRadioTransfers | src/uisp-app.c:101-160 | one pass of the main loop over the radio, in each mode |
| UsbApplication.UsbApp.PostInterruptMessage | src/uisp-app.c:79-87 | what is posted |
| UsbApplication.UsbApp.FlushEverything | src/uisp-app.c:68-77 | rings, radio and write flag are reset |
| UsbApplication.UsbApp.UsbFunctionSetup | src/uisp-app.c:165-205 | RQ_MODE, RQ_READ and RQ_FLUSH act at once; requests with a data stage wait for their data |
| UsbApplication.UsbApp.UsbFunctionWrite | src/uisp-app.c:307-319 | a chunk of a write is collected; the last one stores the packet and posts |
| UsbApplication.UsbApp.WriteInChunks | src/uisp-app.c:243-323 | however the data stage is cut, the packet stored is the packet sent |
| UsbApplication.UsbApp.Configure | src/uisp-app.c:288-306 | RQ_CONFIG empties and resizes the rings; they stay well formed if and only if each old start lies within its new size |
| UsbApplication.ReplyRoundTrip | librf24pp/rf24libusbadaptor.cpp:266-281 | the host reads from a reply the packet and the "more" bit that the dongle put there |
| IOTransfers.IOTransfer.AppendFromBuffer | librf24pp/rf24iotransfer.cpp:76-85 | appends a buffer cut into packets |
| IOTransfers.PiecesJoin | librf24pp/rf24iotransfer.cpp:76-85 | the pieces join to the buffer, have at most 32 bytes, and only the last may have fewer |
| IOTransfers.IOTransfer.Submit | librf24pp/rf24iotransfer.cpp:29-33 | a submitted transfer starts over and is queued |
| IOTransfers.IOTransfer.TransferStarted | librf24pp/rf24iotransfer.cpp:35-41 | a writing transfer without packets is over at once |
| IOTransfers.IOTransfer.NextForWrite | librf24pp/rf24iotransfer.cpp:149-156 | hands out each packet once, in order |
| IOTransfers.IOTransfer.BufferWriteDone | librf24pp/rf24iotransfer.cpp:135-142 | counts an acknowledgement; an asynchronous transfer may be over |
| IOTransfers.IOTransfer.BufferReadDone | librf24pp/rf24iotransfer.cpp:127-133 | keeps a received packet; over when the count is reached |
| IOTransfers.IOTransfer.AdaptorNowIdle | librf24pp/rf24iotransfer.cpp:92-102 | completion of a synchronous transfer, or a deadline that has passed |
| LibUsbAdaptors.LibUsbAdaptor.Submit | librf24pp/rf24adaptor.cpp:42-51 | queues and starts |
| LibUsbAdaptors.LibUsbAdaptor.StartTransfers | librf24pp/rf24adaptor.cpp:124-180 | picks, switches, issues or asks, as the function that the theorems are about |
| LibUsbAdaptors.LibUsbAdaptor.IssueAll | librf24pp/rf24adaptor.cpp:150-173 | the fair-share loop |
| FairShare.IssuesAlternately | librf24pp/rf24adaptor.cpp:150-173 | the loop sends a write and a read in turn, then what is left of either kind: the next packets of the transfer, as many as there are credits |
| FairShare.StartSends | librf24pp/rf24adaptor.cpp:138-175 | with a transfer at work only a mode request goes out when it needs another mode, nothing while a switch is under way, and otherwise what the credits allow; a transfer for any mode needs no switch |
| AckPayloads.CreditsAreExact | librf24pp/rf24libusbadaptor.cpp:177-211 | with both rings in use, a waiting host that handles a fresh report may send just as many writes as drop nothing and just as many reads as find a packet |
| AckPayloads.ReadsFind | src/uisp-app.c:182-204 | reads give the packets of the ring that the mode reads from, oldest first, "more" on all but the last, and leave the other ring alone |
| AckPayloads.WritesFit | src/uisp-app.c:307-318 | writes go to the ring that the mode fills, without a drop if and only if there are no more than free slots, and leave the other ring alone |
| AckPayloads.IdleMeansEmpty | librf24pp/rf24libusbadaptor.cpp:204-208 | the host takes a report for idle if and only if both rings and the radio's FIFO are empty |
| LibUsbAdaptors.LibUsbAdaptor.UpdateStatus | librf24pp/rf24adaptor.cpp:182-189 | takes credits, unless negative, and starts |
| LibUsbAdaptors.LibUsbAdaptor.BufferWriteDone | librf24pp/rf24adaptor.cpp:109-116 | one write less pending; a request if it was the last |
| LibUsbAdaptors.LibUsbAdaptor.BufferReadDone | librf24pp/rf24adaptor.cpp:100-107 | one read less pending; a request if it was the last |
| LibUsbAdaptors.LibUsbAdaptor.PacketObtained | librf24pp/rf24libusbadaptor.cpp:260-290 | the extra read when the last pending one says there is more |
| LibUsbAdaptors.LibUsbAdaptor.SwitchMode | librf24pp/rf24libusbadaptor.cpp:342-354 | no transfers, no credits, a mode request on the wire |
| LibUsbAdaptors.LibUsbAdaptor.SwitchModeDone | librf24pp/rf24adaptor.cpp:248-254 | the new mode, and a request |
| LibUsbAdaptors.LibUsbAdaptor.StatusUpdateArrived | librf24pp/rf24libusbadaptor.cpp:177-211 | idleness first, then the credits that the mode allows |
| Framing.FrameRoundTrip | include/rf24boot.h:23-41 | opcode, partition, address and the data sent come back from the bytes; the rest is what memory held |
| Framing.ChunksSurviveUpTo25 | librf24pp/rf24ptable.cpp:195 | a chunk survives framing for every command and memory if and only if it has at most 25 bytes |
| Chips.PageBufferRefinesDirectWrites | src/avr/avr-boot-common.c:176-183 | for chunks in order, with rewrites anywhere in the page under way: below the last completed page the flash is as if written directly, the page under way is in the buffer, the rest is untouched |
| Chips.LateChunkIsLost | src/avr/avr-boot-common.c:176-183 | an earlier chunk of a completed page does not reach the flash: agreement persists if and only if the chunk changes nothing |
| Chips.StepAgrees | src/avr/avr-boot-common.c:176-183 | one more chunk keeps buffered flash and direct memory in agreement: the next one, in this page or a new one, or any one of an incomplete page again |
| Devices.Partition.BootProgramPage | src/avr/avr-boot-common.c:137-173 | the word loop programs exactly the buffer, and only that page |
| Devices.Partition.DoFlashWrite | src/avr/avr-boot-common.c:176-183 | buffers a chunk and programs a completed page |
| Devices.Partition.DoEepromWrite | src/avr/avr-boot-common.c:102-106 | writes a chunk in place, at the address cut to 16 bits |
| Devices.Partition.Read | src/avr/avr-boot-common.c:93-131 | a chunk, or nothing when it starts beyond the end; EEPROM addresses cut to 16 bits |
| Devices.CountBounds | src/slave.c:184-189 | the replies to a read reach to what was asked for, and not beyond the partition |
| Devices.Slave.AnswerRead | src/slave.c:179-190 | for a request within the partition exactly max(1, ceil(toread / q)) replies, the k-th with address k * q and the bytes there; for a longer one the whole partition, an empty reply, and no end |
| Devices.AnswerEndsExactlyWhen | src/slave.c:184-189 | some number of turns of the read loop reaches the requested address if and only if the request stays inside the partition |
| Devices.Slave.HandleCmd | src/slave.c:137-199 | what each opcode does, to which partition; the greeting is followed by one header for each partition in order; a write changes no memory or page buffer but those of its partition, and nothing else changes any |
| Devices.Slave.AddPart | src/slave.c:37-42 | registers a partition while there is room |
| RestoreJobs.Job.EndOfFile | librf24pp/rf24ptable.cpp:192-197 | at which chunk reading yields nothing |
| RestoreJobs.Job.BatchIsFirstStop | librf24pp/rf24ptable.cpp:173-191 | a batch ends at the first chunk at which the bound, taken anew for what is left by then, is reached |
| RestoreJobs.Job.BoundaryThrough | librf24pp/rf24ptable.cpp:173-203 | where batches begin is determined by where earlier ones did |
| RestoreJobs.Job.PageEndIsNext | librf24pp/rf24ptable.cpp:161-165 | the padding loop stops at the first page start above the current address |
| PartitionTables.PartitionTable.ReadSome | librf24pp/rf24ptable.cpp:182-203 | one batch: every chunk in it passed the test of the loop as made at that chunk, and the next would not unless the file ended, which costs one packet more; and its packets |
| PartitionTables.PartitionTable.SendFile | librf24pp/rf24ptable.cpp:144-154 | the loop ends; each chunk goes out once, in order, and at most one leftover command at the end, all in asynchronous bulk transfers |
| PartitionTables.PartitionTable.QueuePadding | librf24pp/rf24ptable.cpp:158-165 | filler up to the next page start |
| PartitionTables.PartitionTable.Restore | librf24pp/rf24ptable.cpp:126-171 | what the submitted transfers carry is the job's emission; all are bulk writes, the last one synchronous, the others asynchronous and not empty; the last one is empty if and only if there is no padding |
| Restored.DirectImage | librf24pp/rf24ptable.cpp:126-203 | written in place, the emission determines every byte: the file, in the last chunk what the command still held of earlier ones, filler or at most that chunk once more, the rest unchanged |
| Restored.ImageIsWhole | librf24pp/rf24ptable.cpp:182-203 | those parts leave out no byte; without padding the chunk behind the data is overwritten if and only if the file ends inside a batch |
| EndToEnd.FlashImage | src/avr/avr-boot-common.c:137-183 | so it does on flash, whatever flash and page buffer held before |
| EndToEnd.EndIsNextPage | librf24pp/rf24ptable.cpp:132-135 | a restore reaches to (A / PAGE + 1) * PAGE, where A is the end of its data |
| EndToEnd.InsideExactlyWhenRoomLeft | librf24pp/rf24ptable.cpp:160-165 | all writes stay inside the partition if and only if the data leaves a chunk free |
| EndToEnd.UnpaddedInside | librf24pp/rf24ptable.cpp:191-201 | without padding a restore stays inside the partition, leftover command included |
| EndToEnd.BeyondChunk | librf24pp/rf24ptable.cpp:157-162 | behind the chunk each command, filler included, carries what its memory held at first |
| EndToEnd.HeardAsMeant | src/slave.c:174-194 | for chunks up to 25 bytes the device makes of the packets exactly the writes that were meant |
| EndToEnd.RestoredOverTheAir | librf24pp/rf24ptable.cpp:126-203 | after a restore over a loss-free radio flash and EEPROM hold that image, byte for byte, whatever they, page buffer and command memory held before |
| EndToEnd.JobGoesOverTheAir | librf24pp/rf24ptable.cpp:144-166 | an application submits the transfers of a padded restore: in the step in which the last of them leaves the adaptor, dongle and radio are drained and the whole emission has gone over the air, acknowledged |
| EndToEnd.WriteOverTheAir | librf24pp/rf24ptable.cpp:126-171 | the same with the objects themselves, on flash and on EEPROM: host, packets, command handler, memory; partitions with memory of their own keep what they hold |
| Readback.RepliesAreStream | src/slave.c:184-189 | the device's replies carry opcode and partition of the request and decode to the chunks of the image in order |
| Readback.PartitionReader.SaveSome | librf24pp/rf24ptable.cpp:205-226 | one batch is written out; the end is noticed at the last packet and only there |
| Readback.PartitionReader.Save | librf24pp/rf24ptable.cpp:229-257 | for every cut of the replies into non-empty batches the dump ends and is the partition's image |
| Readback.PartitionReader.VerifySome | librf24pp/rf24ptable.cpp:285-325 | one batch is compared up to the early exit |
| Readback.PartitionReader.Verify | librf24pp/rf24ptable.cpp:327-359 | for every such cut it ends and reports failure if and only if a byte before the last iosize ones differs |
| EndToEnd.RestoreThenReadBack | librf24pp/rf24ptable.cpp:229-359 | after a restore over the air the partition begins with the file, and no byte that a verification compares differs |
| EndToEnd.DumpAndVerify | librf24pp/rf24ptable.cpp:229-359 | host and device: the dump is the partition, and verification fails if and only if it differs from the file before the last iosize bytes, however the replies are batched; no memory changes |
| EndToEnd.WriteDumpVerify | librf24pp/rf24ptable.cpp:126-359 | with the objects themselves, flash or EEPROM: write, dump, verify; the dump begins with the file and the verification passes, however the replies are batched; other partitions keep what they hold |

## Left out

- Discovery of devices, booting the dongle, libusb's transfer pool, failed USB transfers: foreign calls and exceptions.
- The radio driver below `rf24_*`, SPI, V-USB, watchdog, LEDs, delays, retries of `respond` in src/slave.c: hardware.
- Configuration, pipe-open and sweep transfers as steps of a run (RQ_CONFIG is modelled on the dongle alone); a sweep's pending I/O does not balance.
- Ack payloads during a run: the second ring exists in every function and class and `CreditsAreExact` covers a single report, but runs start with it sized 0.
- More than one mode per run: a run begins with one switch and stays in that mode.
- Read replies that arrive when no transfer is current, and replies without data: the callback would use a null pointer or a length of -1, so such a step has no successor.
- Progress of transfers queued behind an asynchronous one: nothing restarts the queue until the next submission.
- Cancellation, the base class's synchronous loops, user callbacks of a transfer.
- UsbApplication.UsbApp.UsbFunctionSetup: does not model RQ_SWEEP, RQ_SYNC and RQ_NOP, because the protocol modelled here does not use them.
- UsbApplication.UsbApp.UsbFunctionWrite: does not model RQ_OPEN_PIPE, because it only sets radio addresses and posts a report; RQ_CONFIG is in Configure.
- EEPROM of 65536 bytes or more, for which the original would compare against a truncated size.
- PartitionTables.PartitionTable.Restore: requires size, padding and one more chunk to fit in 32 bits, so that `addr` does not wrap.
- Readback.PartitionReader.Save: empty batches are not allowed, because the original then uses an address it never set.
- FlowControl.NoOverflow: assumes at most 255 slots, because the report has one byte for the count.
- Page size and chunk size are parameters with the chunk dividing the page; the mask `addr & (SPM_PAGESIZE-1)` is a remainder here.
- Reading the partition table and the greeting on the host, progress bar, wall-clock times, argument parsing, logging, the C API in src/native, boot conditions, the 8051 port, hex images.
