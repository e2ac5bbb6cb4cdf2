# Verified models of the LTTng tools

This project models five parts of the LTTng tools in Dafny and proves what they are for.
Each module below is one component; `dafny verify dfyconfig.toml` checks all of them.

- **Bit fields** (`BitWord`, `Bitfield`, `BitfieldLaws`). The macros of
  `src/common/bitfield.h` read and write an integer field that starts at any bit, has any
  length and crosses any number of units, in either byte order, signed or not. The loops over
  units are methods on an array of words; they are proved equal to a bit-by-bit definition
  (`FieldWritten`, `FieldValue`), and read-back, separation of disjoint fields and independence
  of the unit width are proved of that definition. A word is a sequence of bits, lowest first;
  unit width, value width, start and length are unbounded.
- **Live relay** (`TracefileArray`, `LiveViewer`, `LiveViewerRuns`, `LiveViewerSent`,
  `LiveViewerOrder`, `RelayIndex`, `RelayIndexLaws`, `RelayFiles`, `RelayLive`, `RelayOrder`,
  `RelayInactive`, `RelayStream`, `RelayClose`, `DataPending`). A relay daemon receives the bytes of a packet and its
  description on two connections, joins them into an index, writes it to the file it was given
  with its packet, counts it in the newest file of a ring, and serves the indexes to live viewers
  that may be overtaken. Every region under the stream lock is one step; invariants are proved
  over all interleavings. `LiveViewerRuns` settles which file a request reads in every run, and
  `LiveViewerSent` which index it is sent from there. `RelayLive` proves that the stream of these
  modules is the one the daemon produces, in every run of join, ring, files and viewer.
  `LiveViewerOrder` and `RelayOrder` say when every index is sent once, in order. `RelayFiles` and
  `RelayClose` say, over every run and on the packets stored alone, when a packet opens a new file
  and when a stream closes. The objects that the daemon updates in place are classes whose methods
  are proved against functions on their state.
- **Wake-up protocols** (`FutexDispatch`, `Waiter`). Program counters over sequentially
  consistent steps: any number of wakers and one dispatcher; one waiter and one waker.
- **Crash extraction** (`CrashGeometry`, `CrashExtract`). How the extractor finds, from
  counters that wrap, which bytes of which sub-buffers are valid, and what it writes out.
- **Codecs and sizing** (`Uri`, `UriForms`, `Bytes`, `Notification`, `NotificationWire`, `BitScan`,
  `DynamicBuffer`). The URL parser against the printer and against the texts it takes, notifications
  against their wire form byte by byte, the bit scan behind the rounding of capacities, and the
  growable buffer.

`MachineInt` holds powers of two, the bitwise "and", wrapped subtraction and remainders;
`Wrappers` an option type.

## Properties the code has only under a condition

Where the code does not do what one would expect on every input, the project keeps the code,
shows an input or a run, and proves exactly when the property holds.

- A rotation of the ring loses the oldest sequence number when the file that becomes the
  oldest is empty, and with a single file (`RotateRefinesExactly`, `UnsafeRotations`). In every
  run with two files or more the overall tail is right, lost, or reset to 0 (`RunMatches`).
- After rotations that leave empty files, a viewer can be sent an index twice, sent back to 0, or
  stop the daemon on an assertion, and a read can fail on a file whose slot was reused
  (`RewindsExactly`, `AssertionFailsExactly`, `ReachExactly`; the runs are `SentTwice`,
  `AbortAfterLostTail`, `AbortAfterReset` and `StaleRead`).
- An index that completes after a rotation is written to the file it was given, while the ring
  counts it in the new one (`ControlInStep`, `DataInStep`). A viewer that asks for it gets a read
  error, or a later index in its place: it is sent the index it wants exactly if all since its
  file was opened were written there (`RequestCursor`, `ReplyIsWritten`). `LateIndexIsMissed` is an
  ordinary run from the creation of the stream in which an index is never sent.
- A viewer is sent an earlier index only after a rotation whose index file was not put in place
  (`ReadExactly`, `ForwardRun`, `KeptNameSendsEarlier`).
- With a limit on the size of trace files and none on their number, index files are written under
  a name that viewers do not look for, so that every request fails once something was received
  (`NothingFound`); data files are replaced from the second rotation on (`PacketKeptExactly`,
  `ThirdReplacesSecond`).
- A data file that cannot be opened at a rotation leaves the ring ahead of the files, and every
  later packet is lost, and only then (`FileCurrent`, kept by `ProcessInv`;
  `LostAfterFailedRotation`).
- An index gives the position of its packet unless an earlier packet of the same file was cut
  short (`OffsetsExact`, kept by `ProcessInv`; `CutPacketShifts`).
- A failed index write puts a reference that the flush has put before, and the assertion on the
  count fails exactly if that was the last one, which in the daemon it is (`SecondPutExactly`,
  `FailedWriteExactly`).
- A viewer stream that cannot be created keeps its reference on the stream, which is then never
  released (`LeakIsForever`, `FailedAttachLeaks`); without that, a closed and unheld stream is
  (`ClosedAndReleased`).
- A stream whose packets arrive out of order stays open although the packet of its end is there,
  since only the packet stored last is looked at (`ClosesExactly`, `OutOfOrderStaysOpen`); with
  increasing numbers it closes exactly when that packet is (`ClosesInOrder`).
- The signed comparison of sequence numbers is right up to a distance of 2^63 (`BehindExactly`).
- The waiter's waker asserts a state that a spurious return of FUTEX_WAIT changes
  (`AssertionFailsExactly`, `SpuriousReturnBreaks`).
- With a buffer as large as the word of the traced program, an empty sub-buffer passes for full
  (`CommittedExactly`, `WordSizedBuffer`); if the position wraps between the consumer and
  the producer, nothing is extracted (`Extracted`, `WrappedBuffer`).
- Appending a buffer to itself doubles it if there is room; otherwise the memory moves before it
  is read (`AppendBuffer`).
- A printed port 0 is refused by the parser (`Uri.RoundTrip`).
- A threshold of 2^32 bytes or more, or a ratio between two fixed-point values, changes on the
  wire (`RoundTripExactly`).
- The comment in `lttng_dynamic_buffer_set_size` promises zeroed memory; memory that
  `realloc` adds is not cleared (`ClearedExactly`).

## Model

| member | source | states |
|---|---|---|
| Bitfield.PiecewiseRshift | src/common/bitfield.h:37-47 | shifting in pieces shorter than the word is the arithmetic or logical right shift by any amount, also past the width |
| Bitfield.PiecewiseLshift | src/common/bitfield.h:49-59 | the same for the left shift |
| Bitfield.WriteLe | src/common/bitfield.h:88-145 | the little-endian write gives the buffer in which exactly the bits of the field hold the zero- or sign-extended value, and every other bit is as before |
| Bitfield.WriteBe | src/common/bitfield.h:147-204 | the same for big-endian |
| Bitfield.ReadLe | src/common/bitfield.h:240-305 | the little-endian read returns the bits of the field, extended to the width of the variable by zero or by the sign bit |
| Bitfield.ReadBe | src/common/bitfield.h:307-372 | the same for big-endian |
| BitfieldLaws.WrittenBit | src/common/bitfield.h:88-204 | bit by bit: a written buffer differs from the old one only inside the field, where it holds the bit of the value |
| BitfieldLaws.ReadBackValue | src/common/bitfield.h:88-372 | reading a written field gives the value modulo 2^length, or for signed variables its representative in two's complement |
| BitfieldLaws.RepresentableReadsBack | src/common/bitfield.h:88-372 | the value comes back unchanged if and only if the field can represent it |
| BitfieldLaws.DisjointFields | src/common/bitfield.h:88-372 | writing a field does not change what a disjoint field reads as |
| BitfieldLaws.UnitWidthDoesNotMatter | src/common/bitfield.h:88-232 | through units of any two widths, a write turns the same memory into the same memory |
| BitWord.CastIsModulo | src/common/bitfield.h:88-145 | a C conversion between integer widths is reduction modulo a power of two |
| TracefileArray.TracefileArray.constructor | src/bin/lttng-relayd/tracefile-array.c:26-54 | a new array is empty files with all positions at the start or the sentinel |
| TracefileArray.TracefileArray.FileRotate | src/bin/lttng-relayd/tracefile-array.c:65-91 | rotation in place is the function whose effect on the log is `RotateRefinesExactly` |
| TracefileArray.TracefileArray.CommitSeq | src/bin/lttng-relayd/tracefile-array.c:93-118 | a commit in place is the function whose effect on the log is `CommitRefines` |
| TracefileArray.CommitRefines | src/bin/lttng-relayd/tracefile-array.c:93-118 | a commit keeps the array equal to the last `count` segments of the log of everything committed |
| TracefileArray.RotateRefinesExactly | src/bin/lttng-relayd/tracefile-array.c:65-91 | a rotation keeps that if and only if the next file is unused or the one after it has content |
| TracefileArray.SeqInFileIsMembership | src/bin/lttng-relayd/tracefile-array.c:140-160 | `seq_in_file` on the file of a live segment answers membership in that segment |
| TracefileArray.FilesPartitionTheTail | src/bin/lttng-relayd/tracefile-array.c:65-118 | the live segments are disjoint and cover exactly the sequence numbers from the tail to the head |
| TracefileArray.OverwrittenIsInNoFile | src/bin/lttng-relayd/tracefile-array.c:140-160 | a sequence number before the tail is in no file |
| TracefileArray.WhichFile | src/bin/lttng-relayd/tracefile-array.c:140-160 | a sequence number from the tail on is in exactly one file, the one of its segment |
| TracefileArray.RunRefines | src/bin/lttng-relayd/tracefile-array.c:26-118 | after every run of commits and safe rotations the array is the end of the log |
| TracefileArray.RotateMatches | src/bin/lttng-relayd/tracefile-array.c:65-91 | every rotation, safe or not, keeps the files and the positions in step with the log |
| TracefileArray.RotatedTail | src/bin/lttng-relayd/tracefile-array.c:80-88 | what a rotation does to the overall tail, in terms of the log: unchanged, moved, lost, or with a single file left behind |
| TracefileArray.RunMatches | src/bin/lttng-relayd/tracefile-array.c:26-118 | after every run at all the files are the end of the log, and the overall tail is right, lost, or reset to 0; with a single file it is at or behind the right one |
| TracefileArray.NonEmptyRotationIsSafe | src/bin/lttng-relayd/tracefile-array.c:65-91 | with two files or more, rotating out of a file with content is safe, and keeps that no older file is empty |
| TracefileArray.SlotIsModulo | src/bin/lttng-relayd/tracefile-array.c:74-79 | generation `g` of a ring of `count` files is in slot `g` modulo `count` |
| TracefileArray.UnsafeRotations | src/bin/lttng-relayd/tracefile-array.c:65-91 | runs in which a single file, and an empty file, lose the tail |
| LiveViewer.ViewerStream.Create | src/bin/lttng-relayd/viewer-stream.c:43-160 | attaching gives the cursor that `AttachExactly` states, or fails exactly when the metadata stream has a viewer, the seek is unknown, or there is an index file to open and it is missing, cannot be opened, or its end cannot be sought |
| LiveViewer.ViewerStream.GetNextIndex | src/bin/lttng-relayd/live.c:1136-1268 | a request in place is the function that `RequestExplained` is about, also when an index file cannot be opened; the cursor advances at live.c:1409 |
| LiveViewer.ViewerStream.RotateToNext | src/bin/lttng-relayd/viewer-stream.c:255-318 | the cursor moves to the next file, or resynchronises on the tail; the file is closed if it cannot be opened, and the assertion fails exactly when there is no tail |
| LiveViewerRuns.RequestExplained | src/bin/lttng-relayd/live.c:1136-1268 | in every state of every run, the reply to a request with something to send: which file it reads, given the generations in which the index wanted and the oldest ones are counted; else retry, a failed assertion, or a file that cannot be opened |
| LiveViewerRuns.ReadExactly | src/bin/lttng-relayd/live.c:1401-1409 | reading a position of a file gives an earlier index than the one wanted, that one, a later one or none, if and only if so many of the indexes before it, up to it, or at all, were written to that file |
| LiveViewerRuns.AssertionFailsExactly | src/bin/lttng-relayd/live.c:1243-1257 | the daemon stops on an assertion if and only if the index is counted in neither the cursor's file nor the next, and the overall tail is lost, or wrong or without content in a ring of two files or more (with viewer-stream.c:290) |
| LiveViewerRuns.RewindsExactly | src/bin/lttng-relayd/viewer-stream.c:255-298 | the cursor goes back if and only if the index is counted in neither the cursor's file nor the next and the overall tail is behind it |
| LiveViewerRuns.ReachExactly | src/bin/lttng-relayd/viewer-stream.c:276-284 | for a cursor in a file that is still there, the index is in reach if and only if it is counted in that file or something is counted in the next |
| LiveViewerRuns.EveryRun | src/bin/lttng-relayd/live.c:1136-1268 | in every state of every run, whatever file an index is written to and whatever file cannot be created, the ring stands for the log and every index is in its file in order |
| LiveViewerSent.ReadSince | src/bin/lttng-relayd/live.c:1401-1409 | a read fails if and only if fewer indexes since the file was opened were written to it than are to be read; an index found is not earlier than the one wanted, and is that one if and only if all since then were written there |
| LiveViewerSent.RequestCursor | src/bin/lttng-relayd/live.c:1136-1268 | every request keeps the cursor in step with its file, and what it sends is what `ReadSince` says |
| LiveViewerSent.AttachExactly | src/bin/lttng-relayd/viewer-stream.c:79-137 | a new viewer stands at the beginning of the oldest file of the ring, or at the end of the newest, and is refused if and only if indexes were received and that file cannot be opened |
| LiveViewerSent.ForwardRun | src/bin/lttng-relayd/live.c:1136-1268 | in every run in which no rotation leaves an old file under its name, every delivery is the index with its number or a later one |
| LiveViewerSent.SentTwice | src/bin/lttng-relayd/viewer-stream.c:255-298 | a run from the creation of the stream: two rotations in a row, and index 0 is sent twice |
| LiveViewerSent.AbortAfterLostTail | src/bin/lttng-relayd/live.c:1255-1257 | a run with two files in which the first request stops the daemon |
| LiveViewerSent.AbortAfterReset | src/bin/lttng-relayd/live.c:1255-1257 | a run with three files in which a viewer that has read everything is sent back to 0 and the daemon stops |
| LiveViewerSent.StaleRead | src/bin/lttng-relayd/live.c:1401-1406 | a run in which the read fails |
| LiveViewerSent.KeptNameSendsEarlier | src/bin/lttng-relayd/live.c:1401-1409 | a run in which index 0 is sent again as number 2 |
| LiveViewerOrder.AttachInv | src/bin/lttng-relayd/viewer-stream.c:79-137 | a viewer starts at the oldest index left, or past the newest, with its file and position to match |
| LiveViewerOrder.RequestServed | src/bin/lttng-relayd/live.c:1136-1268 | with no empty file, every index in the file it is counted in, and files that open: a request delivers the next index if there is one, or the oldest one left, and otherwise says retry, inactive or hung up as the state requires; nothing fails |
| LiveViewerOrder.StepInv | src/bin/lttng-relayd/live.c:1175-1268 | commits to the newest file, rotations out of a file with content, attachments and requests keep that, and the cursor never goes back nor passes what was received |
| LiveViewerOrder.EveryRunIsSafe | src/bin/lttng-relayd/live.c:1136-1268 | over every interleaving of these: deliveries are the committed indexes in increasing order, and every number below the cursor was delivered or overwritten |
| RelayIndex.StreamIndexes.constructor | src/bin/lttng-relayd/stream.c:86-98 | a new stream has no index, a beacon of 0 and the sentinel as last sequence number |
| RelayIndex.StreamIndexes.FindOrCreate | src/bin/lttng-relayd/index.c:30-167 | get or create, counting a new index as in flight and its reference on the stream |
| RelayIndex.StreamIndexes.Put | src/bin/lttng-relayd/index.c:225-273 | a put takes a reference; the last one removes the index, counts it out and puts its reference on the stream; with none the assertion fails |
| RelayIndex.StreamIndexes.Flush | src/bin/lttng-relayd/index.c:283-312 | an index with both halves is written and put, also when the write fails; any other is left |
| RelayIndex.StreamIndexes.Finish | src/bin/lttng-relayd/main.c:2034-2045 | both callers: a commit after a write, a second put after a failed one |
| RelayIndex.StreamIndexes.Refuse | src/bin/lttng-relayd/main.c:2021-2045 | an index whose half is there already is put |
| RelayIndex.StreamIndexes.Store | src/bin/lttng-relayd/main.c:2336-2383 | the bytes are appended; cut short, they stay in the file while the recorded size and the sequence number do not move; with no data file they are lost, as `PacketStoredExactly` says on the packets alone |
| RelayIndex.StreamIndexes.RecvIndex | src/bin/lttng-relayd/main.c:1997-2045 | the control half in place is the function the join lemmas are about |
| RelayIndex.StreamIndexes.HandleIndexData | src/bin/lttng-relayd/main.c:2178-2250 | the data half in place, with the index file created at a rotation |
| RelayIndex.StreamIndexes.RotateData | src/bin/lttng-relayd/main.c:2299-2328 | the ring rotates; the size is reset if the next data file can be opened, which never succeeds again after a failure (with src/common/utils.c) |
| RelayIndex.StreamIndexes.ProcessData | src/bin/lttng-relayd/main.c:2298-2383 | the whole region in place is the function that `RotatesExactly`, `PacketStoredExactly` and `ProcessPhase` are about: rotation, data half, bytes, size and sequence number, also when the rotation or receiving fails |
| RelayIndex.StreamIndexes.CloseAll | src/bin/lttng-relayd/index.c:318-330 | no index is left, nothing else changes |
| RelayIndex.StreamIndexes.ClosePartialFd | src/bin/lttng-relayd/index.c:332-351 | exactly the indexes without a file are left |
| RelayIndex.StreamIndexes.FindLast | src/bin/lttng-relayd/index.c:353-369 | the largest sequence number in flight, or the sentinel if there is none; with the sentinel itself among them, any of them or none |
| RelayIndexLaws.ControlInv | src/bin/lttng-relayd/main.c:1997-2045 | a control half or a beacon, in any state and also repeated, keeps: counters exact, references on the stream one per index in flight, exactly one half and one reference per index, beacon fresh, every index naming the place of its packet |
| RelayIndexLaws.ProcessInv | src/bin/lttng-relayd/main.c:2178-2383 | a data half keeps the same, also at a rotation, a failed one too, without a file, or cut short; packets do not overlap, an offset is the position in the file if and only if no earlier packet of the file was cut short, and packets are lost only after a failed rotation |
| RelayIndexLaws.PacketKeptExactly | src/common/utils.c:845-899 | a packet is still on disk if and only if its slot was not used again, or, without a ring, it is in the first or the newest file (with main.c:2306-2316) |
| RelayIndexLaws.ThirdReplacesSecond | src/common/utils.c:845-899 | a run with a limit of 100 bytes and no ring in which the second packet is replaced |
| RelayIndexLaws.CutPacketShifts | src/bin/lttng-relayd/main.c:2336-2383 | a run in which the index of a packet is 10 bytes off |
| RelayIndexLaws.LostAfterFailedRotation | src/bin/lttng-relayd/main.c:2312-2320 | a run in which a packet is lost after a data file could not be opened |
| RelayIndexLaws.ClosePartialInv | src/bin/lttng-relayd/index.c:332-351 | dropping the data-only indexes keeps the same |
| RelayIndexLaws.CloseAllInv | src/bin/lttng-relayd/index.c:318-330 | dropping all indexes keeps the same |
| RelayIndexLaws.BeaconAcceptedExactly | src/bin/lttng-relayd/main.c:1999-2017 | a beacon counts if and only if an index was written and none is in flight |
| RelayIndexLaws.SecondPutExactly | src/bin/lttng-relayd/index.c:255-312 | after a failed write the assertion on the reference count fails if and only if the flush has put the last reference |
| RelayIndexLaws.FailedWriteExactly | src/bin/lttng-relayd/main.c:2034-2045 | since every index has one reference, the daemon stops if and only if a write fails |
| RelayIndexLaws.JoinControl | src/bin/lttng-relayd/main.c:1997-2045 | a first control half joins a waiting data half into one write, or waits |
| RelayIndexLaws.JoinData | src/bin/lttng-relayd/main.c:2178-2250 | a first data half, with a data file open, joins a waiting control half into one write, or waits |
| RelayIndexLaws.Received | src/bin/lttng-relayd/index.c:125-312 | after any messages with each half sent once: indexes in flight are the half-received ones, writes take the offset from the data half and the rest from the control half |
| RelayIndexLaws.EveryIndexOnce | src/bin/lttng-relayd/index.c:125-312 | in whatever order halves arrive, an index is written exactly once if and only if both have arrived |
| RelayFiles.PacketStoredExactly | src/bin/lttng-relayd/main.c:2298-2383 | in terms of the packets stored before: whether a packet is refused, whether it opens the next file and moves the ring, and in which file, at which position and with which recorded offset it is stored |
| RelayFiles.RotatesExactly | src/bin/lttng-relayd/main.c:2298-2328 | in every run, a packet opens the next file if and only if the whole packets of the current one and its own data exceed the limit |
| RelayFiles.FilledInEveryRun | src/bin/lttng-relayd/main.c:2298-2383 | in every run, the recorded size of the current file is the bytes of the whole packets in it |
| RelayFiles.FileBound | src/bin/lttng-relayd/main.c:2298-2328 | a file exceeds the limit by the padding of one packet at most, or holds one packet alone |
| RelayFiles.ControlPhase | src/bin/lttng-relayd/main.c:1997-2045 | a description makes its index await the packet if it is the first half, and ends it otherwise; no other index changes |
| RelayFiles.ProcessPhase | src/bin/lttng-relayd/main.c:2178-2383 | the same for a packet, unless the next data file cannot be opened or there is no index file |
| RelayLive.MessageInv | src/bin/lttng-relayd/main.c:1951-2400 | every message and every request, whatever fails, keeps the invariants of the join, of the ring and of the files together, and the link between them: the stream that viewers read is what the join wrote, each index in its file |
| RelayLive.RunInv | src/bin/lttng-relayd/main.c:1951-2400 | the same for every state of every run of the daemon, with any number of files and any limit |
| RelayLive.ForwardRunInv | src/bin/lttng-relayd/live.c:1136-1268 | the same, and the viewer's cursor, for every run in which no rotation leaves an old file under its name |
| RelayLive.ReplyIsWritten | src/bin/lttng-relayd/live.c:1276-1410 | what a request is answered with, in terms of the indexes the join wrote: which one is sent, with its position from the data half and each other field from the control half, when it is the one wanted, and when the read fails |
| RelayLive.NamesAfter | src/common/index/index.c:38-97 | a data half changes only the file name of the newest slot, which leads to the new file if and only if its creation was attempted and did not fail |
| RelayLive.NothingFound | src/common/index/index.c:190-232 | if only one of the size and the number of files is limited, every request fails once something was received, and no viewer can attach (with src/common/utils.c:729-735) |
| RelayOrder.CommitInStepExactly | src/bin/lttng-relayd/main.c:2034-2037 | an index is in the file it is counted in if and only if that is the newest one |
| RelayOrder.ControlInStep | src/bin/lttng-relayd/main.c:1997-2045 | a control half keeps ring and files in step if and only if it does not complete an index of an older file |
| RelayOrder.DataInStep | src/bin/lttng-relayd/main.c:2255-2383 | a data half does if and only if the index file is not an older one left by a failed rotation |
| RelayOrder.OrderedMessage | src/bin/lttng-relayd/main.c:1951-2400 | under these conditions, with no empty file and files that open, every message keeps the viewer served in order |
| RelayOrder.OrderedRun | src/bin/lttng-relayd/main.c:1951-2400 | the same for every state of every such run from the creation of the stream |
| RelayOrder.LateIndexIsMissed | src/bin/lttng-relayd/main.c:2034-2037 | a run with two files and two packets: the first index is written to file 0 and counted in file 1, its request fails, the second is sent in its place, and it is never sent (with index.c:303) |
| RelayOrder.DeliveredIsWritten | src/bin/lttng-relayd/live.c:1276-1410 | end to end in such a run, what a viewer is sent are the indexes the join wrote, in order, each field as it was received, none missing that is not overwritten |
| RelayInactive.InactiveIsFresh | src/bin/lttng-relayd/live.c:1136-1205 | an INACTIVE reply carries the last accepted beacon, accepted with nothing in flight, with no index written since and everything sent, although the beacon starts at 0; all it takes is that a file is open only if something was received |
| RelayInactive.InactiveInEveryRun | src/bin/lttng-relayd/live.c:1136-1205 | in every state of every run, with any number of files, any rotation, refused and repeated halves, cut packets, files that cannot be opened and indexes in flight, an INACTIVE reply carries a fresh beacon |
| RelayInactive.RunInv | src/bin/lttng-relayd/main.c:1951-2400 | the invariant behind it: table and counters agree, and an index file is open only if something was received, in every state of every run |
| RelayStream.StreamObject.constructor | src/bin/lttng-relayd/stream.c:77-196 | a new stream holds a reference on itself, is in the table and on the reception list |
| RelayStream.StreamObject.StreamPublish | src/bin/lttng-relayd/stream.c:201-226 | publishing takes the stream off the reception list, once |
| RelayStream.StreamObject.StreamUnpublish | src/bin/lttng-relayd/stream.c:233-250 | the stream is in no table |
| RelayStream.StreamObject.StreamPut | src/bin/lttng-relayd/stream.c:285-344 | the last reference releases the stream and takes it off everything |
| RelayStream.StreamObject.TryStreamClose | src/bin/lttng-relayd/stream.c:346-430 | closing in place is the function that `ClosesExactly` is about; without an announced end it is the largest index that awaits its data |
| RelayStream.StepInv | src/bin/lttng-relayd/stream.c:33-430 | every step of the worker and of viewer threads keeps: references equal the stream's own, its indexes, viewer streams, those being created, transient holders and leaked ones; tables and flags agree |
| RelayStream.RunInv | src/bin/lttng-relayd/stream.c:33-430 | the same for every state of every run |
| RelayStream.ClosedAndReleased | src/bin/lttng-relayd/stream.c:285-430 | a stream closes at most once; closed, it has no index in flight and is in no published table; it is released if and only if it is closed, nobody holds it and no reference leaked |
| RelayStream.CloseIsPrompt | src/bin/lttng-relayd/stream.c:356-420 | between commands, a stream asked to close is closed or lacks data up to its last sequence number (with main.c:2385-2390) |
| RelayClose.ClosesExactly | src/bin/lttng-relayd/stream.c:346-430 | in every run, trying to close closes the stream if and only if the session is aborted, no end is known, or the packet stored whole last is not behind the end; the end is that of the last close command, or the largest number whose description came and whose packet did not |
| RelayClose.EndIs | src/bin/lttng-relayd/stream.c:370-396 | in every state of every run the stored end is the one that the commands handled so far make |
| RelayClose.PhaseIs | src/bin/lttng-relayd/stream.c:370-396 | and every index awaits the half that these commands did not bring |
| RelayClose.ClosesInOrder | src/bin/lttng-relayd/stream.c:346-430 | if packets come in increasing order and the end is below 2^63, that is if and only if a packet with the number of the end or a later one was stored |
| RelayClose.EndIsAwaited | src/bin/lttng-relayd/stream.c:370-396 | an end that was not announced is the largest number that awaits its packet, unless the sentinel is among them |
| RelayClose.OutOfOrderStaysOpen | src/bin/lttng-relayd/stream.c:398-421 | a run in which packet 1 comes before packet 0, the end is announced to be 1, and the stream stays open |
| RelayStream.PutsAreHeld | src/bin/lttng-relayd/stream.c:321-344 | no thread puts a reference on the stream that is not held: the assertion on the count never fails |
| RelayStream.IndexPutsAreHeld | src/bin/lttng-relayd/index.c:225-249 | nor do the indexes that go in a region, none of which releases the stream under its own lock |
| RelayStream.ClosedStays | src/bin/lttng-relayd/stream.c:346-430 | closing and releasing are final |
| RelayStream.LeakIsForever | src/bin/lttng-relayd/viewer-stream.c:66-159 | once a viewer stream could not be created, the stream is never released |
| RelayStream.FailedAttachLeaks | src/bin/lttng-relayd/viewer-stream.c:66-159 | such a run: the stream is closed and nobody holds it, and its count stays at 1 (with live.c:315-331) |
| MachineInt.BehindExactly | src/bin/lttng-relayd/main.c:1695-1704 | for numbers less than 2^64 apart, -1 included, the signed difference orders them correctly if and only if they are within 2^63 |
| DataPending.Daemon.DataPending | src/bin/lttng-relayd/main.c:1683-1715 | answers whether data up to the given number is pending, -1 for an unknown stream, and marks the stream |
| DataPending.Daemon.QuiescentControl | src/bin/lttng-relayd/main.c:1757-1766 | marks the stream |
| DataPending.Daemon.BeginDataPending | src/bin/lttng-relayd/main.c:1830-1847 | clears the mark of exactly the streams of the session |
| DataPending.Daemon.EndDataPending | src/bin/lttng-relayd/main.c:1907-1931 | answers 1 if and only if a stream of the session is neither marked nor closed with all data |
| DataPending.FlagMeansChecked | src/bin/lttng-relayd/main.c:1707-1847 | after any run, the mark says exactly that the stream was checked since its session was begun |
| DataPending.StreamIs | src/bin/lttng-relayd/main.c:1683-1931 | after any run, the table holds exactly the streams added and not removed, each with the session it was added to, whether it was closed since, and the last numbers received and announced |
| DataPending.EndAnswer | src/bin/lttng-relayd/main.c:1907-1931 | after any run, in terms of the events alone, the answer is 0 if and only if every stream of the session was checked since BEGIN, or was closed and the last number received is not behind the last one announced |
| FutexDispatch.StepInv | src/common/futex.c:72-123 | every step of any number of wakers and of the dispatcher keeps: work that was missed has a waker before its store, and a block after a store has a waker before its wake |
| FutexDispatch.NoLostWakeUp | src/bin/lttng-relayd/main.c:980-1023 | in every run, a dispatcher blocked with a connection queued or the exit flag up has a waker that is not finished |
| FutexDispatch.WakerUnblocks | src/common/futex.c:112-123 | such a waker gets it out of the wait in at most three steps |
| FutexDispatch.DispatchIsFifo | src/bin/lttng-relayd/main.c:980-1023 | connections are dispatched in order, none lost, none twice |
| FutexDispatch.DrainsThenSleeps | src/bin/lttng-relayd/main.c:980-1023 | left alone, the dispatcher dispatches all that is queued and blocks; with the exit flag up it stops at once |
| FutexDispatch.InterruptedWaitsAgain | src/common/futex.c:86-105 | a signal does not end the wait |
| Waiter.RunInv | src/common/waiter.c:54-124 | without spurious returns the waker's assertion holds, and a waiter that has returned leaves all three flags set |
| Waiter.ReturnIsSafe | src/common/waiter.c:54-124 | in every run, also with spurious returns, the waiter returns only after the waker's last access and is not left blocked |
| Waiter.WaiterReturns | src/common/waiter.c:54-102 | in every run, once the waker is done, the waiter returns after at most four steps |
| Waiter.AssertionFailsExactly | src/common/waiter.c:110-116 | the waker's assertion fails if and only if the waiter left the wait before it |
| Waiter.SpuriousReturnBreaks | src/common/waiter.c:54-116 | a run in which a spurious return makes it fail |
| CrashGeometry.MasksAreModulo | src/bin/lttng-crash/lttng-crash.c:590-615 | the four masks are rounding down and remainder |
| CrashGeometry.IdIndexIsModulo | src/bin/lttng-crash/lttng-crash.c:624-632 | in overwrite mode the index is the low half of the word, otherwise the word |
| CrashGeometry.StoredPosition | src/bin/lttng-crash/lttng-crash.c:617-622 | a stored position gives the index of its sub-buffer, and its lap modulo the word |
| CrashGeometry.CommittedExactly | src/bin/lttng-crash/lttng-crash.c:650-700 | with `p` bytes committed in the lap, the extractor takes exactly `p`, if and only if the buffer is smaller than the word or `p` is not 0 |
| CrashGeometry.WordSizedBuffer | src/bin/lttng-crash/lttng-crash.c:686-700 | with a buffer as large as the word, an empty sub-buffer passes for full |
| CrashExtract.Extraction.CopyOne | src/bin/lttng-crash/lttng-crash.c:634-764 | one sub-buffer in place: the page is patched if it is not complete, and the part that `PacketIsPart` describes appended |
| CrashExtract.PacketIsPart | src/bin/lttng-crash/lttng-crash.c:713-757 | of a complete sub-buffer the bytes its header announces; of an incomplete one exactly the bytes committed, with that number of bits in both size fields of the header |
| CrashExtract.ConsumedIsSkipped | src/bin/lttng-crash/lttng-crash.c:674-685 | a sub-buffer before the one being consumed gives nothing, whatever its counter says |
| CrashExtract.Extraction.CopyData | src/bin/lttng-crash/lttng-crash.c:796-819 | the loop appends what `Extracted` describes, and reports data if and only if the first sub-buffer has some |
| CrashExtract.Extracted | src/bin/lttng-crash/lttng-crash.c:713-819 | the output is, byte by byte, one part per sub-buffer in order up to the first empty one, if the word did not wrap between consumer and producer; otherwise it is empty |
| CrashExtract.WrappedBuffer | src/bin/lttng-crash/lttng-crash.c:796-819 | an image with two full sub-buffers around the wrap of a 32-bit word, of which nothing is extracted |
| CrashExtract.HistoryHasImage | src/bin/lttng-crash/lttng-crash.c:766-820 | every history of at most one lap of the buffer has an image that `Extracted` applies to |
| CrashExtract.PatchedHeader | src/bin/lttng-crash/lttng-crash.c:728-749 | the header of an incomplete packet announces what was committed |
| Uri.GetProtocol | src/common/uri.c:77-99 | the loop finds the first protocol of the table the URL starts with, whatever its case, no earlier one matching, or none if none does |
| Uri.ReadPorts | src/common/uri.c:411-463 | the loop over the ports ends, each pass consuming input, and reads the ports that `ParsesTo` states |
| Uri.UriParse | src/common/uri.c:302-550 | the parser computes the function that `ParsesTo`, `NamedUrl`, `FileUrl` and `RoundTrip` are about |
| Uri.ParsesTo | src/common/uri.c:302-550 | what every URL of the six network protocols with a literal address parses as, with no port, one or two, given or left out, and with a subdirectory or not: which port goes to the control and which to the data connection, and which forms are refused |
| Uri.NetUrl | src/common/uri.c:302-550 | the form with two ports, written out |
| Uri.FileUrl | src/common/uri.c:353-363 | a file URL is its path, cut to the field, and refused unless absolute |
| UriForms.HostExactly | src/common/uri.c:363-409 | a host is read if and only if it is a text in brackets or one without separators, not empty, and a separator or nothing follows |
| UriForms.NamedUrl | src/common/uri.c:105-166 | what a URL with a host name parses as: the answer of the resolver if it fits its field, the loopback address for `localhost` without an answer |
| UriForms.AnyCase | src/common/uri.c:77-99 | the protocol may be written in capitals |
| UriForms.NumberIs | src/common/uri.c:440-455 | `atoi` on a port skips blanks, takes a sign and reads decimal digits up to the first other character |
| Uri.RoundTrip | src/common/uri.c:218-488 | parsing the printed URL of a URI with a literal address gives that URI, bracketed for version 6 as in section 2 of RFC 2732, if and only if the port is not 0 |
| Uri.UrlTrip | src/common/uri.c:218-247 | the same through a buffer, when the returned length says it was large enough |
| Uri.UrlFits | src/common/uri.c:218-247 | the returned length says if and only if the buffer was large enough; if not, it holds as much as fits |
| Uri.FilePrinted | src/common/uri.c:218-247 | a printed path is read back with a slash and the subdirectory after it |
| Uri.PortTrip | src/common/uri.c:411-463 | a printed port is read back, and 0 is refused |
| Uri.AddressTrip6 | src/common/uri.c:369-394 | the text between brackets is the address |
| Uri.ParsedFits | src/common/uri.c:302-550 | whatever the input, a result is one URI, or two with the same host for the net protocols, and port, subdirectory, address and path fit their fields |
| Uri.ParsedIsStable | src/common/uri.c:105-550 | whatever the input, a network URI holds a literal address of its own version, and is read back when printed unless its port is 0 |
| Notification.RatioTrip | src/common/buffer-usage.c:32-42 | over exact reals a ratio loses less than 1/UINT32_MAX, and nothing on a second trip |
| Notification.SerializeUsage | src/common/buffer-usage.c:98-154 | the condition is written at the offset and nowhere else, or refused for its names or its ratio with the buffer unchanged |
| Notification.Serialize | src/common/notification.c:49-86 | the notification is written at the start of the buffer and nowhere else, with its size (with condition.c:65-93 and evaluation.c:26-51); refused, only the type of the condition is written |
| Notification.SerializedSize | src/common/notification.c:49-86 | without a buffer the same size, refused for the names only |
| Notification.UsageRoundTrip | src/common/buffer-usage.c:258-366 | a serialized condition followed by anything is read back, if and only if both names and a domain are set |
| Notification.EvaluationRoundTrip | src/common/evaluation.c:26-98 | an evaluation is read back |
| Notification.ConditionRoundTrip | src/common/condition.c:65-164 | a condition with its type is read back |
| Notification.RoundTrip | src/common/notification.c:49-151 | a notification followed by anything is read back with exactly its own size |
| Notification.RoundTripExactly | src/common/notification.c:49-151 | it is the very same if and only if it is complete and the threshold has a 32-bit form |
| NotificationWire.Written | include/lttng/condition/buffer-usage-internal.h:43-58 | every byte of a serialized notification: length, types, flag, threshold modulo 2^32 or rounded down, name lengths, domain, names and evaluation, each at its offset (with condition-internal.h:46-50, evaluation-internal.h:30-34 and notification-internal.h:48-53) |
| NotificationWire.ParseExactly | src/common/notification.c:99-151 | a notification is read from a view if and only if the bytes of the view are that notification, its length field included; every other view is refused (with buffer-usage.c:258-366) |
| Notification.ReceivedIsStable | src/common/buffer-usage.c:98-366 | what was received once is received unchanged again |
| Notification.NamesDecide | src/common/buffer-usage.c:98-154 | what the setters accept can be serialized if and only if each name has less than 255 bytes |
| Bytes.DecodeEncode | src/common/buffer-usage.c:113-143 | a packed integer field is read back, in either byte order |
| Bytes.EncodedByte | src/common/buffer-usage.c:113-143 | which byte is where: the digits of the value to the base 256, from the low or the high end |
| BitScan.Fls64 | src/common/utils.c:1036-1071 | the cascade finds the position of the highest set bit |
| BitScan.Fls32 | src/common/utils.c:1073-1103 | the same on 32 bits |
| BitScan.HighestBitUnique | src/common/utils.c:999-1003 | that position is unique |
| BitScan.CountOrder64 | src/common/utils.c:1119-1131 | the least order with x <= 2^order, -1 for 0 |
| BitScan.CountOrder32 | src/common/utils.c:1105-1117 | the same on 32 bits |
| BitScan.RoundToPowerOf2 | src/common/dynamic-buffer.c:24-39 | the least power of two that is not smaller; no result for 0 and above 2^63 |
| BitScan.PowerRoundsToItself | src/common/dynamic-buffer.c:24-39 | a power of two is returned as it is |
| DynamicBuffer.DynamicBuffer.constructor | src/common/dynamic-buffer.c:41-45 | an empty buffer of capacity 0 |
| DynamicBuffer.DynamicBuffer.Append | src/common/dynamic-buffer.c:47-76 | the content is followed by the bytes, or unchanged when there is no memory; the capacity grows to the least power of two that holds it; undefined exactly when it would have to exceed 2^63 |
| DynamicBuffer.DynamicBuffer.AppendBuffer | src/common/dynamic-buffer.c:78-92 | the content of another buffer is appended, and that buffer unchanged; of the buffer itself exactly when there is room |
| DynamicBuffer.DynamicBuffer.SetSize | src/common/dynamic-buffer.c:94-140 | shrinking keeps a prefix; growing clears the bytes up to the old capacity |
| DynamicBuffer.ClearedExactly | src/common/dynamic-buffer.c:108-125 | growing clears all it adds, whatever the allocator returns, if and only if it stays within the old capacity |
| DynamicBuffer.DynamicBuffer.SetCapacity | src/common/dynamic-buffer.c:142-172 | the demand is rounded up, the content kept, and a demand below the content refused; undefined exactly for 0 and above 2^63 |
| DynamicBuffer.DynamicBuffer.Reset | src/common/dynamic-buffer.c:174-183 | the memory is freed and the buffer unfit for any further call |
| DynamicBuffer.DynamicBuffer.Init | src/common/dynamic-buffer.c:41-45 | makes an empty buffer of whatever was there |

## Left out

- Sockets, poll loops, threads, signals and health checks; messages arrive as parameters.
- A single trace file in the results on order (`LiveViewerOrder`, `RelayOrder`): every other result on the live relay covers it.
- LiveViewer.ViewerStream.GetNextIndex: opening the data file on the viewer's side, which can fail after the cursor has moved (live.c:1362-1390), new-stream flags and metadata streams are not modelled.
- Packet contents and metadata streams in `live.c`.
- RelayIndex.StreamIndexes.Store: padding that is written only in part is no error in the source and counts in full; the model has it written in full.
- Streams of sessions older than protocol 2.4 and of snapshots, which have no indexes.
- References to an index other than that of its table: `relay_index_get` is only reached after a collision that the stream lock excludes.
- More than one worker thread: the daemon starts one, and a second one could add an index to a stream that another has just closed.
- CrashExtract.Extraction.CopyOne: header fields are 8 bytes wide or absent, because the source reads a narrower one into an uninitialised variable; a write past the end of a page stops there.
- CrashExtract.Extraction.CopyData: requires the producer position to stay one sub-buffer below 2^64, where the loop variable of the source wraps and the loop may not end.
- CrashExtract.Extracted: requires the same of the producer position, for the same reason.
- The raw layout of the crash file: counters, tables and pages are given.
- DynamicBuffer.DynamicBuffer.Append: requires the new size to be below 2^64, as `size_t` does.
- DynamicBuffer.DynamicBuffer.SetSize: requires the new size to be below 2^64, as `size_t` does.
- The optimised bit scans in assembly.
- Name resolution: what the resolver answers is a parameter, as are the syntax `inet_pton` accepts (its characters and its length) and what `atoi` makes of a number that no int can hold.
- Rounding of floating-point ratios: ratios are exact reals.
- Reads outside a received view fail in the model; the source would read beyond it.
- Equality of conditions, triggers, the notification thread, the session daemon and the consumer daemon.
