# Verification of the UNAS CloudKey relay and drivers

A Dafny model of the parts of the project that carry protocol logic, with proofs of what they keep.
`dafny verify dfyconfig.toml` checks all of it.

**The identity relay** (`Bytes`, `Search`, `BodyRewrite`, `SubMessages`, `Frames`, `Messages`, `Relay`).
The server-to-client pump forwards an HTTP upgrade, parses RFC 6455 frames from arbitrary reads,
reassembles fragmented messages, rewrites the identity strings inside a stream of length-prefixed
records, and sends each message as one frame. `Frames.WireFrame` is an independent description of the
wire format with all the freedom a sender has, and `Messages.Item` one of well-formed fragmentation;
the end-to-end theorem is stated against these two.

**The deferred-update framebuffer** (`DirtyLines`, `WriteBack`). Drawing calls change video memory and
then widen a locked dirty range; one worker snapshots and resets the range and copies lines without the
lock. `DirtyLines` has the two critical sections as methods of a class. `WriteBack` is a state machine
whose actions are the steps of every thread, down to single pixels, and whose runs are all interleavings.

**The encoders below it** (`Bits`, `Spi9`, `Bus8`, `GpioBus`, `Sp8110`). Each is proved against a reader:
a panel that takes nine bits at a time, one that drops start bytes, one that latches pins on a rising
edge, and the SP8110 controller with its window and auto-incrementing pointer. `Sp8110Widths` has the
screen widths on which the window and the packed bytes do not match, and `Display` puts the write-back
cache and the controller together and relates what the controller shows to video memory over whole runs.

**Display setup and gamma text** (`Hexadecimal`, `InitProgram`, `InitSequence`, `InitTree`, `Gamma`). Two
interpreters of initialisation programs and a parser and printer of gamma curves, each as the loops of the
driver and as a specification.

**The Bluetooth receive wake lock** (`WakeLock`). Tasklet, self-rearming timer callback, queue consumer,
channel callbacks and deregistration as a state machine with one action per shared-memory step.

**The firmware scan** (`MagicScan`). A windowed search over reads.

Definitions that a loop and its specification share (opcodes, bit and byte orders, tags, marks, separators,
page size) are fixed by laws that state them in numbers or characters, such as `InitTree.CommandByNumber`,
`Messages.ControlComesOutAtOnce`, `Bus8.PixelsAreSent` or `BodyRewrite.CloudKeyBecomesUnas`. The two state machines
have laws that read the end of a run off its actions, such as `WakeLock.FlagsByLastMove` and
`WriteBack.PanelShowsWritten`.

## What the proofs found

- A write through the character device marks the screen with y = -1, which sets the height to yres - 1,
  so the last line of a screen with two or more lines is not marked and can stay stale
  (`WriteBack.LastLineStaysStale`). On a one-line screen the end wraps to the largest unsigned number,
  which the sanity checks turn into a full update.
- Bytes of the HTTP header that arrive before the read that completes it are written twice
  (`Relay.HeaderOnce`, `Relay.TerminatorInTwoReads`).
- Two identity strings that share a quote leave one behind (`BodyRewrite.OverlapLeavesOne`); a second
  pass removes it (`BodyRewrite.TwoPassesClean`).
- The nine-bit emulation accepts word counts that are four modulo eight. It then reads four further
  words and sends four extra bits, which a panel that reads nine at a time drops (`Spi9.PackedBits`,
  `Spi9.TransferDecodes`).
- A channel callback that tests the device pointer before deregistration clears it can schedule the receive
  tasklet afterwards. The tasklet then takes the wake lock and crashes on the cleared pointer in its release
  path (`WakeLock.LateCallbackCrashes`). Deregistration ends clean exactly if nothing that receives is running,
  scheduled or about to be (`WakeLock.DeregistrationEndsClean`); it never leaks the lock without a crash
  (`WakeLock.NoSilentLeak`).
- Both initialisation interpreters put a text of every write together in 128 bytes, whether or not it is
  printed. In an array 27 one-byte values overrun it, in a property 43 (`InitTree.OverrunsExist`), although 64
  are meant to be allowed. The array interpreter's report of more than 64 values can never happen
  (`InitSequence.CountIsNeverReported`).
- A gamma text with a space after a comma is rejected, because both count as separators and an empty
  token is not a number (`Gamma.AdjacentSeparatorsAreRejected`).
- A 16-bit write over the nine-bit bus with a transmit buffer of an odd number of words, smaller than the
  write, stores one word past the buffer before it fails (`Spi9.WriteVmem16Bus9`).
- A drawing call on zero lines inverts or wraps the clean range, so the sanity checks flush the whole
  screen, unless it starts below the last line (`DirtyLines.FlushOfOneCall`).

## Model

| member | source | states |
|---|---|---|
| Relay.EndToEnd | UNAS-CloudKey/lib/wrappers/drive-hardware-relay-v3-frameaware.py:162-203 | For every HTTP header, every well-formed message sequence in any wire form and every division into reads: the pump keeps running, writes the header bytes first, and what follows parses to as many messages in the same order with the same opcodes; the payload of a message with opcode 2 is the rewritten one, every other payload is unchanged |
| Relay.PumpRewriteS2C | UNAS-CloudKey/lib/wrappers/drive-hardware-relay-v3-frameaware.py:162-203 | The loop over reads writes exactly what `Pumps` says of the whole stream: pass-through without a terminator; otherwise the chunks read before the one completing the first CRLFCRLF of the stream, the full header, and the delivered messages of everything behind it. `ok` is false exactly if a message raised, and nothing is written after that |
| Relay.HeaderOnce | UNAS-CloudKey/lib/wrappers/drive-hardware-relay-v3-frameaware.py:174-185 | The output is the header once followed by the delivered messages if and only if the header ends inside the first chunk; otherwise the earlier chunks are written twice |
| Relay.HeaderInTwoReads | UNAS-CloudKey/lib/wrappers/drive-hardware-relay-v3-frameaware.py:174-185 | A header that arrives in two reads, with nothing behind it, is written as its first part followed by the whole header |
| Relay.TerminatorInTwoReads | UNAS-CloudKey/lib/wrappers/drive-hardware-relay-v3-frameaware.py:174-185 | The terminator itself, cut in the middle, comes out as its first half and then the whole of it |
| Relay.ClientSeesMappedMessages | UNAS-CloudKey/lib/wrappers/drive-hardware-relay-v3-frameaware.py:189-199 | For every byte stream after the handshake on which no message raises, whatever its reserved bits, masks, length forms and fragmentation: parsing the output gives exactly the mapped messages and leaves nothing over |
| Relay.WellFormedDelivery | UNAS-CloudKey/lib/wrappers/drive-hardware-relay-v3-frameaware.py:189-199 | Every well-formed stream of messages below nine tenths of 2^48 bytes is delivered in full and parses back to its mapped messages |
| Relay.ParseDelivered | UNAS-CloudKey/lib/wrappers/drive-hardware-relay-v3-frameaware.py:189-199 | Parsing the concatenated output frames gives the mapped messages, an empty buffer and no open fragment |
| Relay.DeliveredIsMinimal | UNAS-CloudKey/lib/wrappers/drive-hardware-relay-v3-frameaware.py:189-199 | The bytes delivered are exactly one minimal RFC 6455 wire frame for each mapped message, so any reader of that format reads them |
| Relay.DeliverOk | UNAS-CloudKey/lib/wrappers/drive-hardware-relay-v3-frameaware.py:189-199 | The pump survives a message sequence if and only if each message has an opcode and no length field overflows |
| Relay.MappedByOpcode | UNAS-CloudKey/lib/wrappers/drive-hardware-relay-v3-frameaware.py:189-199 | A message with opcode 2 gets the rewritten payload, and every message with another opcode passes as it is |
| Relay.DeliverAppend | UNAS-CloudKey/lib/wrappers/drive-hardware-relay-v3-frameaware.py:189-199 | Delivering two message sequences one after the other writes the same bytes as delivering them together, up to the first message that raises |
| Relay.DeliverBuffered | UNAS-CloudKey/lib/wrappers/drive-hardware-relay-v3-frameaware.py:189-199 | The inner loop writes the delivery of every message the buffered bytes complete, and leaves buffer and fragment state as draining leaves them |
| Relay.EmitOne | UNAS-CloudKey/lib/wrappers/drive-hardware-relay-v3-frameaware.py:193-198 | One message becomes one frame, or none where the opcode is missing or a length does not fit |
| Relay.SmallIsDeliverable | UNAS-CloudKey/lib/wrappers/drive-hardware-relay-v3-frameaware.py:193-198 | A message with an opcode and a payload below nine tenths of 2^48 bytes never raises |
| Relay.WSFrameParser.Feed | UNAS-CloudKey/lib/wrappers/drive-hardware-relay-v3-frameaware.py:85-86 | Bytes are appended to the buffer and nothing else changes |
| Relay.WSFrameParser.TryParseOneFrame | UNAS-CloudKey/lib/wrappers/drive-hardware-relay-v3-frameaware.py:113-145 | Agrees with the specification parser on the buffer; consumes exactly the frame's bytes, or nothing while any byte is missing |
| Relay.WSFrameParser.NextCompleteMessage | UNAS-CloudKey/lib/wrappers/drive-hardware-relay-v3-frameaware.py:88-111 | Returns the first message that draining the old state would deliver, and leaves a state that drains to the rest; None only when nothing more can be drained, and every call that returns a message shrinks the buffer. If the next complete frame has opcode 8, 9 or 10, or is a final frame, that frame completes the message returned, and a control frame leaves the fragments collected so far alone |
| Messages.WellFormedStream | UNAS-CloudKey/lib/wrappers/drive-hardware-relay-v3-frameaware.py:88-145 | However a sender fragments its messages, interleaves control frames (opcodes 8, 9 and 10), masks and sizes the frames, the parser delivers control messages where they stand and each data message after its last fragment (RFC 6455 sections 5.4 and 5.5) |
| Messages.ChunkIndependence | UNAS-CloudKey/lib/wrappers/drive-hardware-relay-v3-frameaware.py:85-145 | Feeding a stream in any chunks and draining after each gives the same messages, buffer and fragment state as feeding it at once |
| Messages.DrainAppend | UNAS-CloudKey/lib/wrappers/drive-hardware-relay-v3-frameaware.py:88-111 | Draining a buffer and later the rest together with new bytes is draining all bytes at once |
| Messages.DrainIsDone | UNAS-CloudKey/lib/wrappers/drive-hardware-relay-v3-frameaware.py:93-96 | After a drain a second drain delivers nothing and changes nothing |
| Messages.DrainPrinted | UNAS-CloudKey/lib/wrappers/drive-hardware-relay-v3-frameaware.py:88-145 | Draining any printed wire frames delivers what reassembling their contents delivers and leaves no byte |
| Messages.AbsorbPieces | UNAS-CloudKey/lib/wrappers/drive-hardware-relay-v3-frameaware.py:98-110 | The fragments of a message come out joined in order, after the control messages interleaved among them, and the parser is idle again |
| Messages.ControlComesOutAtOnce | UNAS-CloudKey/lib/wrappers/drive-hardware-relay-v3-frameaware.py:98-99 | A frame with opcode 8, 9 or 10, in any wire form and whatever has been collected, comes out at once as a message of its own and leaves the collected opcode and payload as they were |
| Messages.DataIsCollected | UNAS-CloudKey/lib/wrappers/drive-hardware-relay-v3-frameaware.py:100-110 | A frame with any other opcode replaces what was collected, or is appended to it if the opcode is 0, and the message comes out exactly if the frame is final |
| Messages.PingBetweenFragments | UNAS-CloudKey/lib/wrappers/drive-hardware-relay-v3-frameaware.py:98-110 | A ping between the two fragments of a text message comes out first, and the text message comes out whole |
| Frames.ParsePrint | UNAS-CloudKey/lib/wrappers/drive-hardware-relay-v3-frameaware.py:113-145 | Whatever reserved bits, masking key and fitting length form a sender chose, the parser recovers FIN, opcode and payload and consumes exactly the frame's bytes (RFC 6455 section 5.2) |
| Frames.PrintParse | UNAS-CloudKey/lib/wrappers/drive-hardware-relay-v3-frameaware.py:113-145 | Conversely, every frame the parser accepts is the printed form of a valid wire frame with that content |
| Frames.ParseIsStable | UNAS-CloudKey/lib/wrappers/drive-hardware-relay-v3-frameaware.py:115-140 | Bytes that arrive later never change a frame that is already complete |
| Frames.ParseEncode | UNAS-CloudKey/lib/wrappers/drive-hardware-relay-v3-frameaware.py:59-72 | For every opcode below 16, payload below 2^64 bytes and trailing bytes, parsing the encoded frame returns FIN=1, that opcode and payload and leaves exactly the trailing bytes |
| Frames.EncodeIsShortest | UNAS-CloudKey/lib/wrappers/drive-hardware-relay-v3-frameaware.py:59-72 | The encoder prints an unmasked final frame without reserved bits, and no wire frame with the same payload is shorter |
| Frames.EncodeFrame | UNAS-CloudKey/lib/wrappers/drive-hardware-relay-v3-frameaware.py:59-72 | Fails exactly for payloads of 2^64 bytes and more |
| Frames.MaskTwice | UNAS-CloudKey/lib/wrappers/drive-hardware-relay-v3-frameaware.py:142-143 | Unmasking undoes masking with any four-byte key (RFC 6455 section 5.3) |
| Frames.XorTwice | UNAS-CloudKey/lib/wrappers/drive-hardware-relay-v3-frameaware.py:143 | Exclusive or with the same byte twice gives the byte back |
| Frames.XorBitAt | UNAS-CloudKey/lib/wrappers/drive-hardware-relay-v3-frameaware.py:143 | Bit k of an exclusive or is the sum modulo two of the bits k of the operands |
| Frames.MaskBitAt | UNAS-CloudKey/lib/wrappers/drive-hardware-relay-v3-frameaware.py:142-143 | Bit k of masked byte j is the sum modulo two of bit k of payload byte j and bit k of key byte j mod 4 |
| Frames.EncodedBytes | UNAS-CloudKey/lib/wrappers/drive-hardware-relay-v3-frameaware.py:59-72 | The bytes of an encoded frame in its three length forms, by number: 128 + opcode, then the length, or 126 and two bytes of length, or 127 and eight, then the payload |
| Frames.WireBytes | UNAS-CloudKey/lib/wrappers/drive-hardware-relay-v3-frameaware.py:113-145 | The bytes of every wire frame, by number: flags and opcode, mask bit and length in its three forms, key, masked payload (RFC 6455 section 5.2) |
| Frames.StandardExamples | UNAS-CloudKey/lib/wrappers/drive-hardware-relay-v3-frameaware.py:113-145 | The unmasked and the masked text message and the masked pong of section 5.7 of RFC 6455 are parsed as that section says |
| Bytes.FirstIsHighest | UNAS-CloudKey/lib/wrappers/drive-hardware-relay-v3-frameaware.py:44 | The first byte of a big-endian number is its most significant one |
| Bytes.TwoBytes | UNAS-CloudKey/lib/wrappers/drive-hardware-relay-v3-frameaware.py:66-68 | The two bytes of a 16-bit number are its quotient and its remainder by 256, in this order |
| SubMessages.RewriteSubmessages | UNAS-CloudKey/lib/wrappers/drive-hardware-relay-v3-frameaware.py:29-56 | The index-walking loop computes the specified rewrite, including the early returns of the untouched payload and the overflow of a six-byte length; a payload of records without old strings comes out byte for byte |
| SubMessages.RecordsAreMapped | UNAS-CloudKey/lib/wrappers/drive-hardware-relay-v3-frameaware.py:39-56 | A payload made of records comes out as the records with the same type and version, in order, each body rewritten and each length recomputed, or fails if a rewritten body does not fit its length |
| SubMessages.OneRecord | UNAS-CloudKey/lib/wrappers/drive-hardware-relay-v3-frameaware.py:39-53 | The bytes of one record: type and version are kept, the six bytes of length are those of the rewritten body, and the rewritten body follows |
| SubMessages.CleanRecordsStay | UNAS-CloudKey/lib/wrappers/drive-hardware-relay-v3-frameaware.py:39-56 | Records whose bodies hold none of the old strings come out byte for byte |
| SubMessages.OthersAreUntouched | UNAS-CloudKey/lib/wrappers/drive-hardware-relay-v3-frameaware.py:40-53 | A payload that is not a sequence of records comes out byte for byte, unless one of its complete records outgrows its length field before the malformed part is reached |
| SubMessages.OverflowsExactly | UNAS-CloudKey/lib/wrappers/drive-hardware-relay-v3-frameaware.py:39-53 | The rewrite fails if and only if the rewritten body of one of the complete records reaches 2^48 bytes |
| SubMessages.PrintScan | UNAS-CloudKey/lib/wrappers/drive-hardware-relay-v3-frameaware.py:39-49 | Scanning loses nothing: the records found, printed, followed by the unparsed rest, are the payload |
| SubMessages.ScanPrint | UNAS-CloudKey/lib/wrappers/drive-hardware-relay-v3-frameaware.py:39-49 | Scanning finds exactly the records that were printed |
| SubMessages.NoOverflow | UNAS-CloudKey/lib/wrappers/drive-hardware-relay-v3-frameaware.py:50-54 | Below nine tenths of 2^48 bytes no length field overflows and the payload grows by at most a ninth |
| BodyRewrite.RewriteBody | UNAS-CloudKey/lib/wrappers/drive-hardware-relay-v3-frameaware.py:23-26 | Applies the three substitutions of the table one after the other, in order |
| BodyRewrite.CloudKeyBecomesUnas | UNAS-CloudKey/lib/wrappers/drive-hardware-relay-v3-frameaware.py:16-26 | Each of the three strings of the CloudKey, written out, between texts without quotes becomes the string of the UNAS 2, written out, and the texts stay |
| BodyRewrite.ReplaceIsSplitJoin | UNAS-CloudKey/lib/wrappers/drive-hardware-relay-v3-frameaware.py:25 | Replacing is cutting the text at leftmost disjoint matches and joining the pieces with the new string; no piece but a cut holds a match |
| BodyRewrite.LeavesNothingBehind | UNAS-CloudKey/lib/wrappers/drive-hardware-relay-v3-frameaware.py:16-26 | The rewritten body holds none of the three old strings, written out, if and only if the input holds no two copies of a key that share their boundary quote |
| BodyRewrite.Idempotent | UNAS-CloudKey/lib/wrappers/drive-hardware-relay-v3-frameaware.py:16-26 | A second rewrite changes nothing if and only if the input holds no such overlapping copies |
| BodyRewrite.OverlapLeavesOne | UNAS-CloudKey/lib/wrappers/drive-hardware-relay-v3-frameaware.py:16-26 | Two overlapping copies of the name string are an input on which one pass leaves an old string behind |
| BodyRewrite.TwoPassesClean | UNAS-CloudKey/lib/wrappers/drive-hardware-relay-v3-frameaware.py:16-26 | Two passes remove every old string from every body |
| BodyRewrite.CleanIsFixed | UNAS-CloudKey/lib/wrappers/drive-hardware-relay-v3-frameaware.py:23-26 | A body without old strings is returned unchanged |
| BodyRewrite.LeftBehind | UNAS-CloudKey/lib/wrappers/drive-hardware-relay-v3-frameaware.py:25 | One substitution leaves a copy behind exactly if its string ends in the quote it starts with and two copies overlap in the input |
| BodyRewrite.ForeignKept | UNAS-CloudKey/lib/wrappers/drive-hardware-relay-v3-frameaware.py:24-25 | A substitution neither creates nor destroys an occurrence of a string with another key, although the strings share boundary quotes |
| BodyRewrite.NoDoubleLeft | UNAS-CloudKey/lib/wrappers/drive-hardware-relay-v3-frameaware.py:25 | No two overlapping copies survive a substitution, whatever the input |
| BodyRewrite.GrowthBound | UNAS-CloudKey/lib/wrappers/drive-hardware-relay-v3-frameaware.py:16-26 | A rewritten body is at most two bytes longer for every 18 bytes of the input |
| Search.Find | UNAS-CloudKey/lib/wrappers/drive-hardware-relay-v3-frameaware.py:176 | The first occurrence, or None exactly if there is none |
| WriteBack.CoherentLines | UNAS-CloudKey/custom-drivers/fbtft-core.c:448-561 | Under every interleaving of drawing calls, mapped stores and the flushing worker, a line of the panel always shows memory once everything has settled if and only if it is not the last line of a screen of two or more lines |
| WriteBack.PanelShowsWritten | UNAS-CloudKey/custom-drivers/fbtft-core.c:448-561 | Once everything has settled each cell of the panel shows the value last written to it in the run, or zero, except on the last line of a longer screen after write calls |
| WriteBack.MemoryIsWritten | UNAS-CloudKey/custom-drivers/fbtft-core.c:510-561 | Along every run a cell of memory holds the value last drawn or stored into it |
| WriteBack.CallReachesPanel | UNAS-CloudKey/custom-drivers/fbtft-core.c:510-544 | In every reachable state a call on lines y to y + height - 1 can start and draw any value on any cell of those lines, and the run can go on to a settled panel that shows it |
| WriteBack.StoreReachesPanel | UNAS-CloudKey/custom-drivers/fbtft-core.c:471-507 | The same for a store through a mapped page that has a byte in common with the line |
| WriteBack.StepKeepsInv | UNAS-CloudKey/custom-drivers/fbtft-core.c:448-561 | Every step of every thread keeps: a pixel that differs from the panel lies in the marked range, in a call not yet marked, in a tracked page, in what the worker still copies, or in a last line a write call missed; and while a mark or page waits, work is queued or about to be |
| WriteBack.RunKeepsInv | UNAS-CloudKey/custom-drivers/fbtft-core.c:448-561 | The invariant holds in every reachable state |
| WriteBack.SettledIsCoherent | UNAS-CloudKey/custom-drivers/fbtft-core.c:448-561 | When no call runs, no work is queued and the worker sleeps, any pixel that differs lies in the last line, and a write call changed it |
| WriteBack.CoherentWithoutWriteCalls | UNAS-CloudKey/custom-drivers/fbtft-core.c:510-544 | Without write calls the settled panel equals memory |
| WriteBack.CanSettle | UNAS-CloudKey/custom-drivers/fbtft-core.c:448-507 | From every reachable state the calls and the worker can all come to rest without changing memory |
| WriteBack.LastLineStaysStale | UNAS-CloudKey/custom-drivers/fbtft-core.c:546-561 | On every screen of two or more lines one write call and the flush it schedules end with nothing left to do and an old pixel on the last line |
| WriteBack.FlushOnce | UNAS-CloudKey/custom-drivers/fbtft-core.c:471-507 | A queued worker can run to its end; the lines of the range it flushes then show memory, the others are as they were, and no line is dirty any more |
| WriteBack.SnapshotAhead | UNAS-CloudKey/custom-drivers/fbtft-core.c:480-503 | A snapshot takes in every dirty line and every line of a page it was handed; what it does not take in is still ahead |
| WriteBack.MarkAhead | UNAS-CloudKey/custom-drivers/fbtft-core.c:453-465 | Marking loses no line that was waiting to be flushed |
| DirtyLines.MarkKeeps | UNAS-CloudKey/custom-drivers/fbtft-core.c:459-465 | Marking never takes a line out of the range, whatever the arguments |
| DirtyLines.MarkCovers | UNAS-CloudKey/custom-drivers/fbtft-core.c:453-465 | A call's mark covers every line it may have changed, except the last line of a whole-screen request on two or more lines, which is not covered |
| DirtyLines.MarkedExactly | UNAS-CloudKey/custom-drivers/fbtft-core.c:453-465 | Marking lines y to y + height - 1 extends the range to those lines and no further |
| DirtyLines.WholeScreenMark | UNAS-CloudKey/custom-drivers/fbtft-core.c:453-465 | A whole-screen mark starts at line 0 and ends at line yres - 2, or at 2^32 - 1 on a one-line screen |
| DirtyLines.FlushOfOneCall | UNAS-CloudKey/custom-drivers/fbtft-core.c:387-465 | A single call on a clean range flushes exactly its own lines; a write call all lines but the last of a longer screen; a call on no lines usually the whole screen |
| DirtyLines.PageCovers | UNAS-CloudKey/custom-drivers/fbtft-core.c:489-503 | The lines computed for a page include every line that shares a byte with it |
| DirtyLines.PageExactly | UNAS-CloudKey/custom-drivers/fbtft-core.c:489-503 | A line of the screen is among the lines computed for a page if and only if some byte of memory lies in both, with 4096 bytes to a page |
| DirtyLines.OnPageExactly | UNAS-CloudKey/custom-drivers/fbtft-core.c:489-503 | A page and a line overlap if and only if they have a byte in common |
| DirtyLines.PagesCover | UNAS-CloudKey/custom-drivers/fbtft-core.c:489-503 | The range after the page loop includes the snapshot and every line on any of the pages |
| DirtyLines.PagesExactly | UNAS-CloudKey/custom-drivers/fbtft-core.c:489-503 | The page loop ends at the least first line and the greatest last line of the snapshot and the pages |
| DirtyLines.Flushed | UNAS-CloudKey/custom-drivers/fbtft-core.c:387-401 | The checked range is inside the screen and includes every requested line, for any start and end |
| DirtyLines.FlushedExactly | UNAS-CloudKey/custom-drivers/fbtft-core.c:387-401 | A range in order and on the screen is flushed as it is, any other one as the full screen |
| DirtyLines.DirtyState.MkDirty | UNAS-CloudKey/custom-drivers/fbtft-core.c:448-465 | The fields become the marked range, with C's conversions from int to unsigned |
| DirtyLines.DirtyState.DeferredIO | UNAS-CloudKey/custom-drivers/fbtft-core.c:471-507 | The fields become clean and the flushed range is the checked hull of the old range and the pages |
| DirtyLines.UpdateRange | UNAS-CloudKey/custom-drivers/fbtft-core.c:387-401 | Start and end as the sanity checks leave them |
| WakeLock.LockIsWatched | UNAS-CloudKey/custom-drivers/hci_smd.c:192-362 | Under every interleaving, until the timer is deleted: a held receive wake lock with no handler running has its timer pending or its callback running |
| WakeLock.TimerKeepsWorking | UNAS-CloudKey/custom-drivers/hci_smd.c:202-224 | A timer that is pending or whose callback runs stays so along every run without an unlock by the callback and without the deletion: when the callback does not unlock it starts the timer again |
| WakeLock.RunKeepsInv | UNAS-CloudKey/custom-drivers/hci_smd.c:192-515 | In every reachable state until the timer is deleted a queued frame is watched and so is a lock nobody is about to release |
| WakeLock.StepKeepsInv | UNAS-CloudKey/custom-drivers/hci_smd.c:192-515 | Every step of tasklet, callback, consumer, channel callbacks and deregistration keeps that invariant |
| WakeLock.LockCanBeReleased | UNAS-CloudKey/custom-drivers/hci_smd.c:202-224 | From every such state the consumer and the timer alone can release the lock, without another received frame |
| WakeLock.DeregistrationEndsClean | UNAS-CloudKey/custom-drivers/hci_smd.c:434-718 | Every run after the device pointer is cleared ends with the lock free, the timer dead and no crash if and only if at that moment the tasklet is idle and unscheduled and no channel callback is between its pointer test and its scheduling; otherwise a crash on the cleared pointer is possible |
| WakeLock.DeregistrationCanFinish | UNAS-CloudKey/custom-drivers/hci_smd.c:192-718 | Deregistration and tasklet can still come to rest if and only if the tasklet has no load of the cleared pointer in front of it; otherwise it only leaves its handlers by crashing |
| WakeLock.NoSilentLeak | UNAS-CloudKey/custom-drivers/hci_smd.c:192-718 | Whatever ran at the time, a completed deregistration never leaves the lock held or the timer alive outside a handler that is about to crash |
| WakeLock.LateCallbackCrashes | UNAS-CloudKey/custom-drivers/hci_smd.c:192-702 | A run of nine steps from the initial state: a channel callback tests the pointer before it is cleared and schedules the tasklet after, and the first handler crashes in release_lock with the lock held |
| WakeLock.KillWithoutEvents | UNAS-CloudKey/custom-drivers/hci_smd.c:434-718 | If no channel callback is in flight at tasklet_kill and none starts afterwards, nothing crashes and the lock is free and the timer dead at the end |
| WakeLock.FlagsByLastMove | UNAS-CloudKey/custom-drivers/hci_smd.c:192-718 | Along every run short of a crash, timer, tasklet and pointer are as the last action that sets or clears them left them, and so is the wake lock as long as deregistration has not dropped it: it is taken by the handlers alone, and freed by release_lock and the timer callback alone |
| WakeLock.DropsWhatWasSeen | UNAS-CloudKey/custom-drivers/hci_smd.c:707-708 | Deregistration frees the lock exactly if it saw it held, whatever other threads do between the test and the unlock |
| WakeLock.DeregistersInOrder | UNAS-CloudKey/custom-drivers/hci_smd.c:689-718 | Along every run deregistration takes its steps in order and once: kill the tasklet, clear the pointer, test the lock, free it, delete the timer, clear the timer's function |
| WakeLock.QueueCounts | UNAS-CloudKey/custom-drivers/hci_smd.c:236-362 | Along every run the queue holds the frames delivered and not yet consumed |
| WakeLock.CallbackCounts | UNAS-CloudKey/custom-drivers/hci_smd.c:434-470 | A channel callback goes on exactly if it has found the device pointer set, and ends by scheduling the tasklet or without |
| WakeLock.CrashesExactly | UNAS-CloudKey/custom-drivers/hci_smd.c:176-200 | A step crashes if and only if it uses the cleared device pointer or is a timer firing with its function cleared |
| WakeLock.RoundTakesLockTwice | UNAS-CloudKey/custom-drivers/hci_smd.c:236-432 | Every round of the tasklet's loop takes the lock once in the event handler and once in the data handler |
| WakeLock.DataHandlerDeliversOnce | UNAS-CloudKey/custom-drivers/hci_smd.c:236-297 | The data handler queues at most one frame, under every interleaving |
| WakeLock.EventHandlerDelivers | UNAS-CloudKey/custom-drivers/hci_smd.c:299-362 | The event handler can queue any number of frames, starting the timer for each and keeping the lock |
| WakeLock.ReleaseAlone | UNAS-CloudKey/custom-drivers/hci_smd.c:192-200 | Undisturbed, release_lock frees the lock if the queue is empty, keeps it otherwise, and changes nothing else |
| WakeLock.CallbackAlone | UNAS-CloudKey/custom-drivers/hci_smd.c:202-224 | Undisturbed, the timer callback either frees a held lock on an empty queue, or starts the timer again, and changes nothing else |
| Spi9.WriteSpiEmulate9 | UNAS-CloudKey/custom-drivers/fbtft-io.c:46-89 | Rejects a missing buffer and lengths that are not a multiple of eight; otherwise the transfer has size + ceil(size/8) bytes and is, bit by bit, the beginning of the nine-bit words |
| Spi9.TransferDecodes | UNAS-CloudKey/custom-drivers/fbtft-io.c:70-88 | Read in groups of nine bits an accepted transfer is exactly the (dc, byte) pairs of its words |
| Spi9.PackedBits | UNAS-CloudKey/custom-drivers/fbtft-io.c:70-88 | The bits sent begin with those of all words; four more bits follow exactly when the word count is four modulo eight |
| Spi9.PackAll | UNAS-CloudKey/custom-drivers/fbtft-io.c:70-86 | The block loop packs all words of all blocks, in order, into nine bytes a block |
| Spi9.PackBlock | UNAS-CloudKey/custom-drivers/fbtft-io.c:71-85 | Nine bytes hold exactly the 72 bits of eight words; no other byte of the buffer changes |
| Spi9.PackSeven | UNAS-CloudKey/custom-drivers/fbtft-io.c:71-80 | The shift loop builds the 63-bit number whose bits are the first seven words |
| Spi9.ShiftedWord | UNAS-CloudKey/custom-drivers/fbtft-io.c:73-80 | Or-ing a word in below the accumulator appends its nine bits |
| Spi9.EightWords | UNAS-CloudKey/custom-drivers/fbtft-io.c:81-84 | The 64-bit number in big-endian order and the last low byte are the bits of eight words |
| Spi9.WriteVmem16Bus9 | UNAS-CloudKey/custom-drivers/fbtft-bus.c:185-230 | The transfers of a write decode to each pixel's high then low byte with dc=1, all of them when it succeeds, and all but the last are full chunks; it succeeds exactly if the length and, where there are several chunks, the chunk size are multiples of four words. The packer reads past the transmit buffer exactly as `ReadsPast` says, and the word behind it is overwritten exactly if the buffer is smaller than the write and holds an odd number of words |
| Spi9.PairsOfPixels | UNAS-CloudKey/custom-drivers/fbtft-bus.c:213-217 | For memory that holds pixel values low byte first, the pairs the panel reads are (1, v / 256) and (1, v % 256) for each pixel value v in turn |
| Spi9.WireOrder | UNAS-CloudKey/custom-drivers/fbtft-io.c:70-88 | The nine bits of a word on the wire are its bit 8 and then bits 7 down to 0 |
| Spi9.WordByNumber | UNAS-CloudKey/custom-drivers/fbtft-bus.c:77-117 | A word 0x100 * dc + low is the pair of dc and low |
| Spi9.ChunkPast | UNAS-CloudKey/custom-drivers/fbtft-bus.c:206-227 | Whether anything past the transmit buffer is read or written is decided by the first chunk |
| Spi9.BufferIsEnough | UNAS-CloudKey/custom-drivers/fbtft-core.c:1453-1456 | The packed form of any chunk fits the extra buffer of len + len/8 + 8 bytes |
| Spi9.WriteReg8Bus9 | UNAS-CloudKey/custom-drivers/fbtft-bus.c:77-117 | A panel reads the padding as no-ops, then the command byte with dc=0, then its data bytes with dc=1 |
| Spi9.RegisterByNumber | UNAS-CloudKey/custom-drivers/fbtft-bus.c:77-117 | What the panel reads of a register write, by number: fewer than four no-ops up to a multiple of four words, the low byte of the command with dc=0, the low bytes of the data with dc=1 |
| Bus8.WriteVmem16Bus8 | UNAS-CloudKey/custom-drivers/fbtft-bus.c:130-181 | Every transfer fits the buffer and starts with the start byte if there is one, and all but the last carry as many pixels as fit; without start bytes the transfers concatenate to a prefix of the byte-swapped memory range, to all of it on success, and a failed transfer ends the write with its error |
| Bus8.PixelsAreSent | UNAS-CloudKey/custom-drivers/fbtft-bus.c:154-181 | For memory that holds pixel values low byte first, the payloads of a write are a prefix of the concatenated two-byte big-endian forms of the values, and all of it on success |
| Bus8.SwappedPixels | UNAS-CloudKey/custom-drivers/fbtft-bus.c:164-174 | Exchanging the bytes of each pair turns pixel values low byte first into the concatenation of their big-endian forms |
| Bus8.DataStartAnnounces | UNAS-CloudKey/custom-drivers/fbtft-bus.c:157-162 | The start byte of a data transfer is the configured one with bit 1 set and every other bit as it was |
| Bus8.WriteBuffered | UNAS-CloudKey/custom-drivers/fbtft-bus.c:154-181 | The same for the buffered loop, which ends because the chunk size is not zero |
| Bus8.FillTransfer | UNAS-CloudKey/custom-drivers/fbtft-bus.c:164-174 | One transfer is the start byte and the byte-swapped pixels of its chunk |
| GpioBus.Bus.WriteWord | UNAS-CloudKey/custom-drivers/fbtft-io.c:312-344 | Starting from pins that carry the remembered word, setting only changed pins latches the new word at one rising edge and leaves the pins carrying it |
| GpioBus.Bus.WriteWordPlain | UNAS-CloudKey/custom-drivers/fbtft-io.c:331-339 | The unoptimised loop latches the same word at one rising edge |
| GpioBus.Bus.WriteGpio8 | UNAS-CloudKey/custom-drivers/fbtft-io.c:301-348 | The levels at the rising edges of /WR are the bytes of the buffer in order, exactly as in the plain writer; pins and remembered byte agree on exit |
| GpioBus.Bus.WriteGpio8Plain | UNAS-CloudKey/custom-drivers/fbtft-io.c:301-348 | The plain writer latches the bytes of the buffer in order |
| GpioBus.Bus.WriteGpio16 | UNAS-CloudKey/custom-drivers/fbtft-io.c:351-399 | The same for sixteen pins and little-endian words |
| GpioBus.Bus.WriteGpio16Plain | UNAS-CloudKey/custom-drivers/fbtft-io.c:351-399 | The plain writer latches the words of the buffer in order |
| GpioBus.WriteAll8 | UNAS-CloudKey/custom-drivers/fbtft-io.c:301-348 | Over any sequence of calls the latched levels are those of the concatenated buffers |
| GpioBus.WriteAll16 | UNAS-CloudKey/custom-drivers/fbtft-io.c:351-399 | The same on sixteen pins, for buffers of whole words |
| GpioBus.LevelsDetermine | UNAS-CloudKey/custom-drivers/fbtft-io.c:323-329 | Equal levels mean equal words, so a panel that latches the levels has the data |
| GpioBus.ByteOnPins | UNAS-CloudKey/custom-drivers/fbtft-io.c:323-329 | At edge i of an eight-pin write, pin k carries bit k of byte i |
| GpioBus.WordOnPins | UNAS-CloudKey/custom-drivers/fbtft-io.c:373-379 | At edge i of a sixteen-pin write, pins 0 to 7 carry the bits of byte 2i and pins 8 to 15 those of byte 2i + 1 |
| Sp8110.UpdateShowsLines | UNAS-CloudKey/custom-drivers/fb_sp8110.c:254-372 | Whatever range an update is asked for, on screens of full columns the controller afterwards displays memory row 0 first and shows the grey level of every pixel of the flushed lines, no other cell has changed, and the bytes fill the window exactly |
| Sp8110Widths.ShowsExactlyFullColumns | UNAS-CloudKey/custom-drivers/fb_sp8110.c:254-372 | Where the window bounds fit their bytes, updates show their lines for every content if and only if the width is a multiple of four |
| Sp8110Widths.WrongWidth | UNAS-CloudKey/custom-drivers/fb_sp8110.c:254-372 | For every other width and every content of the screen, an update of a blank panel leaves a pixel out, paints a cell that is none of the pixels, or does not fill its window |
| Display.SettledScreenShowsMemory | UNAS-CloudKey/custom-drivers/fbtft-core.c:387-507 | Under every interleaving of drawing calls, mapped stores and the worker, with the transfers built from what the worker read reaching the controller: once everything has settled, the display starts at memory row 0 and every cell shows the grey level of its pixel in video memory, except on a last line that a write call changed |
| Display.ScreenShowsMemory | UNAS-CloudKey/custom-drivers/fbtft-core.c:387-544 | Without write calls the whole screen shows video memory once everything has settled |
| Display.StepKeepsInv | UNAS-CloudKey/custom-drivers/fbtft-core.c:387-507 | Every step keeps: the controller shows the abstract panel outside the lines being copied, and every pixel of those lines is still to be read, or its value as read is in the buffer or sent |
| Display.Transferred | UNAS-CloudKey/custom-drivers/fbtft-core.c:387-416 | The transfer of a finished copy shows what was read on its lines, leaves every other cell as it was, and leaves the start line at 0 |
| Sp8110.WindowFits | UNAS-CloudKey/custom-drivers/fb_sp8110.c:254-283 | The controller's window holds exactly the pixels of the requested lines if and only if the width is a multiple of four and at most 864 and the lines are below 256 |
| Sp8110.PaintLines | UNAS-CloudKey/custom-drivers/fb_sp8110.c:332-372 | Packed lines written from the start of the window paint exactly those lines and bring the pointer back to its start |
| Sp8110.PaintRestOfRow | UNAS-CloudKey/custom-drivers/fb_sp8110.c:332-372 | The packed pixels of a row paint the row up to the edge of the window and move the pointer to the next row |
| Sp8110.PackAppend | UNAS-CloudKey/custom-drivers/fb_sp8110.c:341-360 | Packing an even number of pixels and then more is packing them together |
| Sp8110.GrayIsMonotone | UNAS-CloudKey/custom-drivers/fb_sp8110.c:319-330 | More of any primary colour never makes a pixel darker |
| Sp8110.LevelByNumber | UNAS-CloudKey/custom-drivers/fb_sp8110.c:319-330 | The grey level of a pixel by number: five and six bits expanded to eight, weighted 77, 150 and 29, and cut to four bits |
| Sp8110.GreenRedBlue | UNAS-CloudKey/custom-drivers/fb_sp8110.c:319-330 | At equal strength a green pixel is at least as bright as a red one, and a red one as a blue one |
| Sp8110.NeutralKeepsLevel | UNAS-CloudKey/custom-drivers/fb_sp8110.c:319-330 | A neutral pixel of any strength keeps its level, from black to white |
| Sp8110.FillTxbuf | UNAS-CloudKey/custom-drivers/fb_sp8110.c:341-360 | The packing loop fills the buffer with the packed form of the area, an unpaired last pixel included |
| Sp8110.Driver.LocalWriteBufDc | UNAS-CloudKey/custom-drivers/fb_sp8110.c:104-108 | One transfer is sent with the data/command pin at the given level |
| Sp8110.Driver.WriteCmd | UNAS-CloudKey/custom-drivers/fb_sp8110.c:110-116 | The command byte goes out with the pin low, then the arguments, if any, with the pin high |
| Sp8110.Driver.SetAddrWin | UNAS-CloudKey/custom-drivers/fb_sp8110.c:254-283 | Sends column window, row window and start line 0, with columns counted in fours from 0x28 |
| Sp8110.Driver.WriteVmem | UNAS-CloudKey/custom-drivers/fb_sp8110.c:332-372 | Sends the write command and the packed pixels of the byte range and leaves the pin low |
| Sp8110.Driver.UpdateDisplay | UNAS-CloudKey/custom-drivers/fbtft-core.c:387-416 | For any start and end the range read stays inside video memory, and the transfers are the window and the packed lines of the checked range |
| InitTree.FormsAgree | UNAS-CloudKey/custom-drivers/fbtft-core.c:1065-1257 | A non-empty program of writes (1 to 64 values below 2^16) and delays that fits the array is performed in either form up to the first write whose text overruns its 128 bytes, so in full if and only if every text fits; and where the array form works the device-tree form does too |
| InitTree.OverrunsExist | UNAS-CloudKey/custom-drivers/fbtft-core.c:1065-1257 | One write of 27 zeros in an array and one write of 43 zeros in a property overrun the text buffer |
| InitProgram.BytewideLimits | UNAS-CloudKey/custom-drivers/fbtft-core.c:1098-1206 | For one-byte values the text fits exactly up to 26 values in the array form and 42 in the device-tree form |
| InitProgram.WidthByNumber | UNAS-CloudKey/custom-drivers/fbtft-core.c:1098-1206 | A value below 2^16 is printed with two digits, or with three or four if it needs them |
| InitProgram.PerformedInFull | UNAS-CloudKey/custom-drivers/fbtft-core.c:1065-1257 | A program is performed in full if and only if all its texts fit, and an overrun is the only other end |
| InitProgram.ArrayIsTighter | UNAS-CloudKey/custom-drivers/fbtft-core.c:1098-1206 | For 16-bit values a text that fits in the array form fits in the device-tree form |
| InitSequence.AcceptedExactly | UNAS-CloudKey/custom-drivers/fbtft-core.c:1182-1250 | An array is accepted if and only if it starts with the array form of some valid program all of whose texts fit |
| InitSequence.AcceptedIsEncoded | UNAS-CloudKey/custom-drivers/fbtft-core.c:1182-1250 | What an accepted array performs is a valid program whose texts fit, and the array starts with its encoding |
| InitSequence.PerformedIsPrefix | UNAS-CloudKey/custom-drivers/fbtft-core.c:1182-1250 | Even a faulty array only performs valid operations whose text fits, and exactly those its first entries say |
| InitSequence.InterpretEncode | UNAS-CloudKey/custom-drivers/fbtft-core.c:1182-1250 | The array form of a program performs it up to the first write whose text overruns, whatever follows its stop marker |
| InitSequence.CountIsNeverReported | UNAS-CloudKey/custom-drivers/fbtft-core.c:1199-1219 | No array is ever answered with the error for more than 64 values, because its text overruns first |
| InitSequence.NothingBehindStop | UNAS-CloudKey/custom-drivers/fbtft-core.c:1184-1187 | Entries behind a stop marker never change the operations or the error |
| InitSequence.InitDisplay | UNAS-CloudKey/custom-drivers/fbtft-core.c:1148-1257 | Finds the stop marker or reports it missing, without reading past the first 512 entries, and then does what the interpreter specification says |
| InitSequence.MarksByNumber | UNAS-CloudKey/custom-drivers/fbtft-core.c:1182-1250 | An array -1, values, -2, ms, -3 performs a write of the values and a delay, whatever follows |
| InitSequence.MissingStopByNumber | UNAS-CloudKey/custom-drivers/fbtft-core.c:1165-1173 | An array is rejected for want of a stop marker if and only if none of its first 512 entries is -3 |
| InitSequence.Perform | UNAS-CloudKey/custom-drivers/fbtft-core.c:1182-1256 | The second loop never reads past the first stop marker, advances on every round, performs exactly the specified operations with the specified end, overruns included, and never reaches the statement after it |
| InitSequence.BuildText | UNAS-CloudKey/custom-drivers/fbtft-core.c:1199-1206 | The text loop comes to the length of the text of all values but the first |
| InitSequence.ReadValues | UNAS-CloudKey/custom-drivers/fbtft-core.c:1211-1221 | Collects exactly the values up to the next negative entry, or reports more than 64 |
| InitTree.AcceptedExactly | UNAS-CloudKey/custom-drivers/fbtft-core.c:1088-1134 | A property performs a given program, all of it and nothing else, if and only if it spells it, the operations are within the interpreter's limits, and every text fits |
| InitTree.CommandByNumber | UNAS-CloudKey/custom-drivers/fbtft-core.c:1085-1123 | A property of a cell with bit 24 set, plain cells and whatever else performs one write of the cell's low sixteen bits and the plain cells, unless they are more than 64 values or their text is longer than 127 characters, and goes on behind them |
| InitTree.DelayByNumber | UNAS-CloudKey/custom-drivers/fbtft-core.c:1124-1128 | A cell with bit 25 set and bit 24 clear is a delay of its low sixteen bits |
| InitTree.IllegalByNumber | UNAS-CloudKey/custom-drivers/fbtft-core.c:1129-1133 | A cell with neither bit set ends the program with an error where an operation should start |
| InitTree.OneCommand | UNAS-CloudKey/custom-drivers/fbtft-core.c:1085-1107 | The property of the single cell 0x010000AE writes register 0xAE and nothing else |
| InitTree.InterpretSpelled | UNAS-CloudKey/custom-drivers/fbtft-core.c:1088-1134 | A property that spells a program performs it up to the first write whose text overruns |
| InitTree.PerformsValid | UNAS-CloudKey/custom-drivers/fbtft-core.c:1088-1134 | Whatever the property holds, only writes of 1 to 64 values below 2^16 whose text fits and delays below 2^16 are performed |
| InitTree.EncodedIsSpelled | UNAS-CloudKey/custom-drivers/fbtft-core.c:1088-1134 | The device-tree form of a program spells it |
| InitTree.InitDisplayDt | UNAS-CloudKey/custom-drivers/fbtft-core.c:1065-1137 | The device-tree loop performs the specified operations with the specified end, a missing property and overruns included |
| InitTree.BuildText | UNAS-CloudKey/custom-drivers/fbtft-core.c:1098-1103 | The text loop comes to the length of the text of all values |
| InitTree.ReadCells | UNAS-CloudKey/custom-drivers/fbtft-core.c:1085-1097 | Collects the command and the plain cells behind it, or reports more than 64 |
| Gamma.RoundTrip | UNAS-CloudKey/custom-drivers/fbtft-sysfs.c:24-113 | For every matrix of at least one value, parsing the printed text returns exactly the same values and succeeds |
| Gamma.AcceptedExactly | UNAS-CloudKey/custom-drivers/fbtft-sysfs.c:55-90 | A text is accepted if and only if it has one line per curve and each line exactly one number per value |
| Gamma.TextAcceptedExactly | UNAS-CloudKey/custom-drivers/fbtft-sysfs.c:43-90 | A text is accepted if and only if, separators replaced and margins trimmed, it is one line per curve with exactly one number per value |
| Gamma.AdjacentSeparatorsAreRejected | UNAS-CloudKey/custom-drivers/fbtft-sysfs.c:43-90 | A text with two adjacent commas or spaces between other text, such as a comma followed by a space, is rejected |
| Gamma.SeparatorsInterchange | UNAS-CloudKey/custom-drivers/fbtft-sysfs.c:45-53 | Exchanging spaces with commas and newlines with semicolons anywhere in a text changes nothing |
| Gamma.MarginsAreIgnored | UNAS-CloudKey/custom-drivers/fbtft-sysfs.c:45-55 | White space and separators before or behind a text change nothing |
| Gamma.CaseDoesNotMatter | UNAS-CloudKey/custom-drivers/fbtft-sysfs.c:17 | Upper-case and lower-case digits of a number have the same value |
| Gamma.DigitByCharacter | UNAS-CloudKey/custom-drivers/fbtft-sysfs.c:17 | The digits are the characters 0 to 9, a to f and A to F, with the values 0 to 15 |
| Gamma.PrefixesAreAccepted | UNAS-CloudKey/custom-drivers/fbtft-sysfs.c:17 | A plus sign or 0x or 0X in front of a number is accepted and changes nothing |
| Gamma.StoredRowMajor | UNAS-CloudKey/custom-drivers/fbtft-sysfs.c:63-80 | In an accepted text the number at line i and place j is stored at index i * num_values + j |
| Gamma.RowsStore | UNAS-CloudKey/custom-drivers/fbtft-sysfs.c:55-90 | No text, accepted or not, stores more than num_curves * num_values values, and an accepted one stores exactly that many |
| Gamma.ParseStr | UNAS-CloudKey/custom-drivers/fbtft-sysfs.c:24-95 | The whole array afterwards: the stored values at its front and every other entry unchanged, on success and on error |
| Gamma.ParseLines | UNAS-CloudKey/custom-drivers/fbtft-sysfs.c:55-90 | The same for the loop over lines |
| Gamma.ParseValues | UNAS-CloudKey/custom-drivers/fbtft-sysfs.c:62-78 | One line's values go to consecutive entries from the curve's base; nothing else changes |
| Gamma.RowAccepted | UNAS-CloudKey/custom-drivers/fbtft-sysfs.c:62-84 | A line is accepted if and only if it has one token per value and every token is a number |
| Gamma.SplitJoin | UNAS-CloudKey/custom-drivers/fbtft-sysfs.c:15 | Cutting joined tokens at the separator gives the tokens back |
| Gamma.HexIsNumber | UNAS-CloudKey/custom-drivers/fbtft-sysfs.c:107 | The printed digits of a value, padded to any width, denote that value |
| Gamma.SprintfGamma | UNAS-CloudKey/custom-drivers/fbtft-sysfs.c:97-113 | The buffer holds one line per curve, and at most 128 values of 64 bits fit a page |
| Gamma.PrintCurve | UNAS-CloudKey/custom-drivers/fbtft-sysfs.c:105-109 | A curve adds its line behind what was printed before, the last space turned into a newline |
| Gamma.LayoutByNumber | UNAS-CloudKey/custom-drivers/fbtft-sysfs.c:103-109 | One space stands between two values of a line, and each line ends in a newline |
| Gamma.FourPlaces | UNAS-CloudKey/custom-drivers/fbtft-sysfs.c:107 | A value below 2^16 is printed in four places, a larger one in more and without a leading zero |
| Gamma.PrintedExample | UNAS-CloudKey/custom-drivers/fbtft-sysfs.c:103-110 | A line of 0xAB, 0 and 0x12CDE is printed as the characters 00ab 0000 12cde |
| Gamma.PrintedLines | UNAS-CloudKey/custom-drivers/fbtft-sysfs.c:45-55 | The printed text passes unchanged through separator replacement and trimming cuts only its last newline |
| MagicScan.ScanForMagic | scripts/fetch-firmware-debs.sh:66-85 | For any file and any division into non-empty reads the printed offset is that of the first occurrence of the four characters hsqs in the whole file, and the scan fails if and only if there is none |
| MagicScan.FoundInWindow | scripts/fetch-firmware-debs.sh:75-79 | The first match in the window, moved by the dropped bytes, is the first match in everything read |
| MagicScan.NotInWindow | scripts/fetch-firmware-debs.sh:75-80 | No match in the window and none earlier means none in everything read, across read boundaries too |

## Left out

- Relay.PumpRewriteS2C: sockets, `asyncio` scheduling, draining and closing are a list of reads and an output byte string; connection resets are not modelled. A message whose opcode is None (a continuation frame with nothing to continue) and a length that does not fit raise in the original; here the pump ends with `ok` false.
- `pump_passthrough` and the connection handler: plain copying.
- Frames.ParseFrame: does not check reserved bits, unknown opcodes or fragmented control frames, because the original does not.
- WriteBack.StepKeepsInv: video memory and the panel are maps of pixels, not arrays; the work queue runs one worker at a time and hands over the tracked pages when it starts; page tracking itself is an input (`Touch` and `Store`).
- WriteBack.CanSettle: says that everything can come to rest, not that the scheduler lets it.
- DirtyLines.DirtyState.DeferredIO: page indices are not cut to the width of `unsigned long`, and line numbers stay below 2^31.
- WakeLock.LockIsWatched: the timer callback never runs concurrently with itself, and a channel read may find anything at any time. That the timer eventually stops is not claimed; it re-arms while the queue is empty and the lock already free.
- WakeLock.DeregistrationEndsClean: between `hci_free_dev` and the clearing of the pointer, and through the timer's own copy of it, the device is taken to stay readable; who else holds it is not part of this model. A cleared pointer is a crash where it is used, and a frame the Bluetooth layer refuses is a handler giving up.
- The transmit wake lock and the open, close, restart, setup and vendor commands of the Bluetooth driver: dominated by the channel's behaviour.
- Spi9.WriteSpiEmulate9: the SPI transfer itself always succeeds; its error code is only passed on.
- Spi9.WriteVmem16Bus9: little-endian machines only; memory behind the transmit buffer is eight words that no one else changes meanwhile, and a spare last byte of an odd-sized buffer counts as behind it.
- Spi9.WriteReg8Bus9: the emulated bus only, with a buffer present; the transfer's error message is dropped.
- Bus8.WriteVmem16Bus8: the data/command pin is not modelled.
- GpioBus.Bus.WriteGpio8: one bus owns the remembered word, as the original demands of its drivers; pins start low and the strobe high.
- Sp8110.UpdateShowsLines: screens of full columns, at most 864 columns and 256 lines; `Sp8110Widths.ShowsExactlyFullColumns` has the other widths and `Sp8110.WindowFits` the other bounds. Transfer errors are not modelled.
- Display.SettledScreenShowsMemory: starts from a controller that shows a blank screen, and the transfers of one copy reach the controller together, when the copy ends.
- InitSequence.InitDisplay: what happens after an overrun of the text buffer is unknown and ends the model's run; the printing of the text, the position in error messages, the reset call and chip select, and a missing array, are not modelled.
- InitTree.InitDisplayDt: a missing node and a missing or empty property are one error.
- Gamma.ParseStr: memory allocation failure, null arguments and debug text are not modelled. The kernel's `strsep`, `strim`, `kstrtoul` and `scnprintf` are not part of the repository; they are written out as the kernel documents them, with the size of `unsigned long` as a parameter.
- MagicScan.ScanForMagic: printing and the exit status are the returned offset or None.
- The startbyte branches of the register-write macro, the latched 16-pin writer, the BCM2708 register code, debug printing and timing statistics, probe, allocation and registration, backlight.
- The fixed SP8110 initialisation list and the grey-level values as tables: finite.
- The remaining drivers and all provisioning, build, flash and verification scripts: thin wrappers, process control and I/O.
