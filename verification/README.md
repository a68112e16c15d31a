# The frame layer, the timer and the write path of a WebSocket library, verified

This project models the protocol core of the blazewave WebSocket library (RFC 6455 with
permessage-deflate, RFC 7692) in Dafny and proves what the library promises about it. Code that
changes state step by step is modelled by classes with the same fields and by the same loops over
arrays; code that builds values is modelled by functions. `dafny verify dfyconfig.toml` checks
everything.

The pieces, from the bytes up:

* `Mask.dfy`: masking. A byte-at-a-time definition with its laws, and the cascade of unrolled
  64-bit loops proved to compute it in place.
* `BufioWriter.dfy`, `BufioReader.dfy`: the buffered writer over a sink with arbitrary short writes
  and errors, and the buffered reader over a source that follows an arbitrary script of short
  reads, empty reads and errors. The write buffer is a stretch of a larger slab.
* `Frame.dfy`, `FrameStream.dfy`: the header codec, frames, and where the frames of any byte stream
  end.
* `FrameWriter.dfy`, `FrameReader.dfy`: one connection's frames, with masking done inside the write
  buffer, control frames between data frames, and the drain during the close handshake.
* `Messages.dfy`: what a sequence of frames means. This is the one reference that both the message
  writer and the message reader are held to.
* `MsgWriter.dfy`, `MsgReader.dfy`: fragmentation, the tail trimmer, reassembly, the size limit and
  the end of a message.
* `Acceptance.dfy`, `Exchange.dfy`: both ends together. What one application wrote is accepted by the
  other end, and is what it reads.
* `Writers.dfy`, `LostClose.dfy`: any number of goroutines in `writeFrame` while the connection is
  being closed, as a state machine of small steps, and what becomes of a close frame that a server
  leaves in its buffer.
* `Delivery.dfy`, `Progress.dfy`: the other side of that machine. A frame that has gone through is on
  the wire, any frame can get through, nobody hangs, and how far the lock excludes.
* `Handles.dfy`: above that machine, any number of goroutines that write messages through handles,
  with the lock on the message writer, and control frames beside them.
* `Timer.dfy`, `TimerLedger.dfy`: the heap with back-pointers, its free list and wake-up signal, and
  the ledger of what has been promised and what has fired.
* `Handshake.dfy`, `Close.dfy`: the closing handshake from the end that starts it, and close payloads.
* `BufferPool.dfy`, `SlidingWindow.dfy`, `Negotiation.dfy`: the buffer pool, the decompression window,
  and the negotiation of permessage-deflate.
* `Witnesses.dfy`: inputs that reach the surprising cases listed below.

How the parts rest on each other: every run of a class is covered by its `Valid()`, which each
method requires and keeps, so a clause of `Valid()` holds in every reachable state. Ghost fields
record history (`log` and `intact` of a frame writer, `sent` of a message writer, `received` and
`sound` of a message reader, `ledger` of a timer). `intact` is given up at the first failed write
and `sound` at the first failed read or when a message is left before its last byte; up to then the
history is exact. Behind a failure `track` still says in which frame the reader has stopped. The
source's `reported` holds the errors it has returned so far, and nothing else counts as reported.
On the writing side `faults` counts the calls in which the sink failed and `hindered` how often the
connection was found closed or closing; `Trouble()` says that one of them has grown, and without
trouble a write succeeds or fails for one of the reasons its contract names.
`Writers` shows that writers do not overlap, which is what lets `FrameWriter` treat one frame at a
time; before each data frame a message writer lets any number of other goroutines' control frames
pass. Whether the connection is being closed is re-chosen at each look.

## What is false of the code, and when it holds

* **Nothing follows a close frame** (RFC 6455, section 5.5.1). True of every client, and of a server
  as long as no goroutine has left a close frame in its buffer (`Writers.WireSafe`). A server's
  buffered writer sits on the raw connection, and `closedFlag` is set a moment before the channel
  `closed` is: a goroutine that looks at the flag in between leaves a whole close frame unflushed,
  and others can still begin frames behind it. They see the flag too and flush nothing, but a full
  buffer is written out. So bytes get past the close frame exactly when the bytes begun after it do
  not fit the room behind it: in every run only then (`LostClose.PassesOnlyOutOfRoom`), and then it
  can happen (`LostClose.PassesExactlyOutOfRoom`). `LostClose.LeavesClose` reaches such a state for
  every close frame that fits the buffer and says how long the next frame has to be.
* **What a peer sends is accepted.** `WriteControl` does not look at the length of its payload. The
  other end refuses a stream of written frames if and only if some control frame is longer than 125
  bytes or a close frame's payload is malformed (`Acceptance.RefusedExactly`,
  `Acceptance.ControlRefused`). Otherwise a reader fails only because of the transport, the end of the
  connection, or a message that is longer than allowed (`Exchange.ReceiveNext`).
* **Every header parse starts on a frame boundary.** There are two ways off. `Conn.reader` checks
  `fin` only, so while nothing has failed the next parse starts on a boundary exactly when no payload
  of the last frame is left. And a failure leaves the connection open with the frame it failed on
  wherever reading stopped: the next call of `Reader`, or the drain of a later `Close`, parses from
  there. Behind any failure, of the transport or a refusal, that is a boundary exactly when the frame
  has not been begun or is all gone (`MsgReader.MsgReader.ParseStartsOnBoundary`,
  `MsgReader.MsgReader.WaitCloseHandshake`); behind a refusal, exactly when the refused frame has no
  payload or is a close frame with a legal header, whose payload has been read
  (`MsgReader.MsgReader.ParseAfterRefusal`). `Witnesses.AbandonedPayloadIsParsed` abandons a message
  whose payload holds a frame and gets that frame as the next message;
  `Witnesses.RefusedPayloadIsParsed` does the same with every frame that is refused for its header.
* **No header is parsed after a close frame.** True exactly if the close frame's header is not refused
  and its payload is empty or a valid status with a reason. A malformed one is answered with an error
  and forgotten: nothing is recorded, the connection stays open, and the next call reads on behind it
  (`FrameReader.Conn.HandleControl`, `FrameReader.Conn.ReadNext`, `MsgReader.MsgReader.Reader`).
  `Witnesses.CloseEndsReading` has both sides for every payload a close frame can have.
* **`io.EOF` means the message is complete.** Any error that wraps the transport's `io.EOF` also
  becomes the message's `io.EOF`, so a message cut off between two frames, inside a header or inside
  a payload looks complete. It takes an end that the transport has reported, or in the last frame of a
  compressed message an unexpected one, with everything it has delivered used up; and when the
  transport has nothing more and nothing else interferes, `io.EOF` comes for an incomplete message
  exactly when there is payload left or the last frame is still to come (`MsgReader.MsgReader.Read`).
  So a message that `Conn.Read` returns without an error is the one that was sent if and only if all
  of that one has been delivered (`Exchange.ReceiveNext`). `Witnesses.TruncatedLooksComplete` shows
  the other case for every frame and every place inside its payload.
* **Messages never interleave.** True of every client. At a server a goroutine may find the connection
  closing and leave the first frame of its message in the buffer; its handle has not turned to
  continuations, so if it goes on, be it only with `Close`, the message begins a second time. What can
  be on the wire fails to be messages exactly when that has happened
  (`Handles.BrokenExactly`); as long as no handle goes on like this, the peer sees each message whole
  and by itself, in the order of the locks (`Handles.NeverInterleaved`). `Handles.GoingOnBreaks` gets
  such a stream to the peer for all payloads of which the first fits the buffer and the second does
  not fit it twice.
* **Bytes come before the error behind them.** `bufio.Reader.Read` reports a pending error with
  bytes still buffered exactly when it is called with an empty slice (`BufioReader.Reader.Read`,
  `Witnesses.ErrorBeforeByte`). `Pop` drops the short result of its `Peek` and forgets the error; with
  an error pending, it does so exactly when fewer bytes are buffered than asked for
  (`BufioReader.Reader.Pop`).
* **A close frame carries its reason.** Of the close frames that are sent, a reason is lost exactly
  when it goes with status 1005, which stands for no status (`Close.CloseRoundTrip`).
* **The frame lock excludes.** In every run it does until a close frame has gone out and one has come in
  (`Progress.ExcludesUntilAnswered`). From then on it need not: the answer to a close frame gives the
  lock back early, and the deferred second unlock frees it under whoever has taken it meanwhile
  (`Progress.LockLost`, for any frames at either end). Nobody touches the buffer any more by then
  (`Writers.LockingStep`).
* **A message can follow a failed one.** `MsgWriter.Close` keeps the message lock whenever it fails,
  be it in the compressor's flush or in the last frame, and leaves the handle closed, so that no
  later call releases it (`MsgWriter.MsgWriter.Close`). After a close frame has been sent it always
  fails. `Conn.write` releases the lock of a failed message if compression was not negotiated, and
  keeps it otherwise, also when its `Write` fails (`MsgWriter.MsgWriter.WriteMessage`).

## Model

| member | source | states |
|---|---|---|
| Mask.MaskedAt | mask.go:21-130 | byte i of the masked payload is byte i of the input xor key byte i mod 4, for all lengths and keys |
| Mask.TurnedAdds | mask.go:123-129 | turning the key by m and then n bytes is turning it by m + n |
| Mask.TurnedPeriod | mask.go:123-129 | only the length mod 4 matters for the returned key |
| Mask.MaskedAppend | mask.go:21-130 | masking a payload in two pieces with the threaded key is masking the whole |
| Mask.ChunkingIrrelevant | mask.go:21-130 | however a payload is cut up, the bytes on the wire are the same |
| Mask.MaskedTwice | mask.go:21-130 | masking twice with one key is the identity |
| Mask.LowXor | mask.go:23-31 | one xor of a 64-bit word with the doubled key masks its low four bytes |
| Mask.HighXor | mask.go:23-31 | the same for its high four bytes |
| Mask.MaskBlocks128 | mask.go:29-63 | the 128-byte loop masks whole blocks only, in place, and leaves the key alone |
| Mask.MaskRest | mask.go:123-127 | the last loop masks byte by byte and rotates the key once per byte |
| Mask.MaskFrom | mask.go:21-130 | the whole cascade of loops refines byte-at-a-time masking, including the rotated key |
| Mask.MaskGo | mask.go:21-130 | a slice of an array is masked in place, nothing else in the array changes, the key comes back turned by the length |
| BufioWriter.Writer.FlushBuffer | internal/bufio/bufio.go:393-411 | sink and buffer together keep the same bytes whatever the sink does; on success all of them are in the sink; it fails if and only if the sink fails or falls short |
| BufioWriter.Writer.Flush | internal/bufio/bufio.go:383-391 | a pending error is reported once and forgotten; nothing is lost or duplicated |
| BufioWriter.Writer.Write | internal/bufio/bufio.go:420-452 | the stream grows by exactly the bytes reported as accepted, all of them unless there is an error, which takes one pending or a sink that fails; errors stick; terminates |
| BufioWriter.Writer.WriteByte | internal/bufio/bufio.go:458-461 | the same for one byte |
| BufioWriter.Writer.Perform | internal/bufio/bufio.go:383-461 | over any sequence of writes and flushes, sink plus buffer is the concatenation of what was accepted, and bytes outside the own stretch of the slab never change |
| BufioReader.Source.Read | internal/bufio/bufio.go:94-107 | the io.Reader contract: the next bytes in order, any number of them, and any error; exactly the errors returned are recorded as reported |
| BufioReader.Reader.Slide | internal/bufio/bufio.go:82-87 | moving the buffered bytes to the front loses none |
| BufioReader.Reader.FillBuffer | internal/bufio/bufio.go:81-109 | consumes nothing, adds bytes or records an error, and gives up after exactly a hundred empty reads in a row; the full-buffer panic is a precondition every caller is proved to meet |
| BufioReader.Reader.Peek | internal/bufio/bufio.go:122-144 | the next bytes of the stream without consuming any; short only with an error the source has reported |
| BufioReader.Reader.Pop | internal/bufio/bufio.go:150-157 | consumes exactly what it returns, all or nothing; on an error the bytes before it stay unread and the error is gone, with one pending if and only if fewer bytes are buffered than asked for |
| BufioReader.Reader.Discard | internal/bufio/bufio.go:164-190 | consumes exactly the reported number, all of them if and only if there is no error, and the error is one the source has reported |
| BufioReader.Reader.Read | internal/bufio/bufio.go:197-225 | returns exactly the next bytes; an error with bytes left if and only if the slice is empty and an error is pending |
| BufioReader.Reader.ReadByte | internal/bufio/bufio.go:229-241 | the next byte, or an error the source has reported, behind the last byte before it; no error while bytes are buffered, and the end once the source has hung up |
| BufioReader.Reader.ReadSlice | internal/bufio/bufio.go:253-281 | up to the first delimiter, which ends the line if and only if there is no error |
| BufioReader.Reader.ReadFull | frame.go:78-97 | io.ReadFull over this reader: all the bytes if and only if no error; an error only once everything delivered is used up, and only one the source has reported or an end in the middle; io.EOF if the source hangs up before the first byte |
| Bytes.BigEndianRoundTrip | frame.go:151-158 | numbers that fit come back from their big-endian bytes |
| Bytes.BigEndianOfValue | frame.go:77-83 | bytes come back from the number read from them |
| Frame.LengthRoundTrip | frame.go:138-161 | every length below 2^63 comes back from its two fields |
| Frame.ParseOfParts | frame.go:51-101 | how the parser reads a header field by field |
| Frame.HeaderRoundTrip | frame.go:51-172 | reading a written header, whatever follows, returns it and stops exactly behind it, for all 63-bit lengths, 4-bit opcodes and keys |
| Frame.EncodingShortest | frame.go:138-161 | no bytes that parse to the same header are shorter than what is written, and equally short ones are the same bytes |
| Frame.FlagBits | frame.go:112-136 | which bit of the first two bytes stands for which flag, and where the opcode is |
| Frame.Examples | frame.go:109-172 | the bytes of the headers of the examples in section 5.7 of RFC 6455, of a close frame and of a compressed message |
| Frame.LongExamples | frame.go:138-161 | the bytes of the headers for 256 and 65536 bytes |
| Frame.FrameRoundTrip | frame.go:51-172 | a written frame parses back with its payload unmasked, whatever follows |
| Frame.FramesRoundTrip | frame.go:51-172 | a stream of written frames parses back to those frames and no others |
| Frame.StreamsParseUniquely | frame.go:109-172 | different frame sequences never share a byte stream |
| Frame.ParseHeaderStable | frame.go:51-101 | bytes that arrive later do not change a header already read |
| Frame.ParseFrameStable | read.go:303-334 | bytes that arrive later do not change a whole frame already read |
| Frame.ParseFrameArrived | read.go:303-334 | a frame that can be read from the stream can be read as soon as its own bytes are there |
| FrameStream.FirstFramesWritten | write.go:259-344 | in a stream that starts with written frames, the first k frames are the first k written |
| FrameStream.FirstFramesMonotone | read.go:213-264 | fewer frames are a prefix of more and end earlier |
| FrameStream.NoBoundaryInside | read.go:24-25 | inside a frame, behind its start and before its end, there is no boundary |
| FrameStream.FramesOfPrefix | read.go:213-264 | a receiver of any part of what was written finds the written frames in order, and no others |
| FrameStream.FirstFramesArrived | read.go:213-264 | the first frames of a stream are there as soon as their bytes are |
| Messages.AssembleContinues | read.go:527-568 | more frames only complete or lengthen messages; none already received changes |
| Messages.TailRestored | compress.go:75-133 | putting 00 00 ff ff back restores the stream if and only if the stream ended in it |
| FrameWriter.BuildFirstByte | frame.go:112-126 | the flag and opcode bits |
| FrameWriter.BuildLengthByte | frame.go:133-145 | the mask bit and the shortest 7-bit length |
| FrameWriter.Conn.WriteFrameHeader | frame.go:109-172 | on success exactly the encoded header; on failure a prefix of it |
| FrameWriter.Conn.MaskBuffered | write.go:376-382 | masking in place changes exactly the bytes just buffered, though the slice reaches to the end of the slab |
| FrameWriter.Conn.WriteMaskedPayload | write.go:356-386 | on success the stream grows by exactly the masked payload; whatever fails, no unmasked byte of it reaches the sink |
| FrameWriter.Conn.WriteFramePayload | write.go:346-387 | the same for both kinds of connection |
| FrameWriter.Conn.SendFrame | write.go:286-344 | one more whole frame in the log, flushed if final, or the connection is not intact any more |
| FrameWriter.Conn.WriteFrame | write.go:259-344 | refused untouched once a close frame was sent, on a closed connection and without a key; otherwise the frame in full, with the key drawn, or a failure that leaves a prefix on the sink; it fails only for those reasons, with an error pending, or if the sink fails or the connection is seen closing meanwhile, which always makes it fail; the log has at most one close frame, its last |
| FrameWriter.Conn.constructor | conn.go:177-260 | a new connection has sent nothing |
| MsgWriter.MsgWriter.Reset | write.go:137-151 | fails if and only if another message is open; otherwise a fresh one begins |
| MsgWriter.MsgWriter.FeedData | write.go:193-200 | what one more data frame does to the meaning of the stream: type and compression on the first frame only, continuations behind it |
| MsgWriter.MsgWriter.WriteFragment | write.go:193-200 | one frame that does not end the message; the opcode turns to continuation on success only; without trouble outside it fails only behind a close frame |
| MsgWriter.MsgWriter.Others | write.go:241-256 | any number of other goroutines' control frames between two data frames leave the messages alone; what they may have spoiled is recorded |
| MsgWriter.MsgWriter.TrimWrite | compress.go:93-133 | for any split into writes, frames plus held tail are the compressor's output, and the tail is its last min(4, n) bytes |
| MsgWriter.MsgWriter.ReleaseTail | compress.go:108-118 | the first bytes of the tail go out and the rest shifts over |
| MsgWriter.MsgWriter.Write | write.go:161-200 | whatever control frames go between its fragments: a closed handle is refused with nothing changed; compression is switched on exactly by a write at or above the threshold before the first frame; what was written is added to the message; a compressor that has failed does nothing more; without trouble outside it fails only for one of these reasons or behind a close frame |
| MsgWriter.MsgWriter.Close | write.go:203-234 | refused on a closed handle, after a close frame was sent and with a failed compressor; on any error the lock stays held and the handle is closed; on success exactly one more message is complete, with exactly the bytes written, and everything is flushed; if the compressed stream ended in the marker, payload plus marker is the stream; without trouble outside it fails if and only if the handle is closed or locked, the compressor has failed, or a close frame has been sent |
| MsgWriter.MsgWriter.WriteSingle | write.go:114-135 | without compression a message is one final frame, and the lock is released either way; without trouble outside it fails if and only if the lock is not to be had or a close frame has been sent |
| MsgWriter.MsgWriter.WriteMessage | write.go:114-135 | with and without compression: on success exactly one more message, with the bytes given, and the lock is free; on a failure the lock stays held if and only if compression was negotiated and the message had begun; without trouble outside it fails if and only if a lock is not to be had, the compressor has failed before, or a close frame has been sent |
| MsgWriter.MsgWriter.WriteControl | write.go:241-256 | one frame more, final and with exactly this payload, between any two data frames, which leaves the messages alone; the stream stays acceptable if and only if its payload fits; without trouble outside it fails if and only if a close frame has been sent |
| FrameReader.FrameHere | read.go:213-264 | a whole frame behind a boundary leads to the next boundary and adds exactly itself |
| FrameReader.NoBoundaryBehind | read.go:24-25 | behind the start of a frame and before its end there is no boundary, whether or not all of it has come |
| FrameReader.BadHeaderIs | read.go:220-262 | which headers are refused, bit by bit and opcode by opcode |
| FrameReader.BoundaryWithin | read.go:213-264 | of the positions from the start of a frame to its end, only these two are boundaries, whether or not all of it has come |
| FrameReader.RefusedOnBoundary | read.go:220-262 | the position behind a refusal is a boundary if and only if the refused frame has no payload or is a close frame with a legal header |
| FrameReader.Conn.ReadFrameHeader | read.go:303-316 | consumes exactly a header's bytes and returns what they say; fails only because of the transport, a closed connection or a negative length, with at most a part of the header gone; after a valid close frame has been received it reads nothing |
| FrameReader.Conn.ReadFramePayload | read.go:318-334 | the exact bytes, or an error of the transport or of a closed connection; io.EOF if the stream ends before the first of them |
| FrameReader.Conn.HandleControl | read.go:366-436 | a ping is answered with its unmasked payload; a close frame whose payload has come ends reading for good if and only if that payload is valid, which is recorded with the status and reason it carries; oversized or fragmented control frames are refused with their payload unread |
| FrameReader.Conn.TakeFrame | read.go:215-262 | a bad header is refused with nothing read behind it, and what is taken has no bad header; a close frame that has come is consumed whole and ends reading if and only if its payload is valid, with its status and reason as the error; a control frame leaves the messages alone, and a ping, and nothing else, is answered with its payload |
| FrameReader.Conn.ReadNext | read.go:215-262 | what is accepted is no bad header, and a bad one that has arrived is refused with its payload left; any other failure is the transport's or a closed connection's, or a malformed close frame; whatever the failure, nothing behind that frame is gone; a control frame leaves the messages alone |
| FrameReader.Conn.ReadLoop | read.go:213-264 | from a boundary, ends behind a data frame's header that stands at a later boundary, all frames in between being control frames, the pings among them answered in order and nothing else; a failure leaves a part of the frame at such a boundary; a close frame received is the error |
| FrameReader.Conn.Drain | close.go:188-200 | the frames are looked for at boundaries if and only if the first of them is; it ends with the close frame received, with its status and reason, and otherwise because of the transport, a closed connection, or the refusal of the frame last looked for; after a valid close frame nothing is read |
| FrameReader.Conn.SkipAndDrain | close.go:181-200 | the same, from the end of the bytes skipped; a whole close frame behind them in the buffer decides the error |
| MsgReader.MsgReader.constructor | read.go:131-140 | a new reader stands at the start with a limit one above the default |
| MsgReader.UnmaskedSplit | read.go:555-566 | unmasking a stretch of the stream piece by piece |
| MsgReader.MsgReader.NextFrame | read.go:537-548 | only a continuation is accepted within a message; the peer is blamed only if the stream shows an offence; the pings on the way are answered in order and nothing else |
| MsgReader.MsgReader.ReadPiece | read.go:551-566 | up to the rest of the frame, unmasked, and accounted for |
| MsgReader.MsgReader.ReadTail | read.go:530-533 | the four marker bytes once, then the end |
| MsgReader.MsgReader.ReadRaw | read.go:527-568 | bytes of the current message in order across frames, at least one if there is room, or its end, which is reported only behind the last one |
| MsgReader.MsgReader.ReadLimited | read.go:591-611 | a message is read to its end only if it is shorter than the limit (one above the configured one), and is refused after exactly as many bytes as the limit |
| MsgReader.MsgReader.Read | read.go:505-525 | the next bytes of the message; io.EOF for an incomplete one only after the transport has reported an end and with all it delivered used up, and at its end exactly when payload or a last frame is missing; every failure is excused by the transport, a closed connection, the limit, or an offence in the stream |
| MsgReader.MsgReader.ParseStartsOnBoundary | read.go:447-451 | before and after any failure, the next header parse starts on a boundary if and only if nothing is left of the current frame or, after a failure, the frame it failed on was not begun or is gone |
| MsgReader.MsgReader.ParseAfterRefusal | read.go:220-262 | after a refusal, for whatever reason, the next parse starts on a boundary if and only if the refused frame has no payload or is a close frame with a legal header |
| MsgReader.MsgReader.Reader | read.go:438-465 | refused within a message; otherwise begins the next one, past any control frames; a data frame that is buffered is taken over whatever it follows, a bad one refused with its payload left; behind a close frame it reads nothing if and only if that one was valid; the pings on the way are answered in order and nothing else |
| MsgReader.MsgReader.BeginMessage | read.go:487-503 | type, compression and limit of the new message, with the reader aligned behind its first header |
| MsgReader.MsgReader.ReadAll | read.go:63 | io.ReadAll in reads of any sizes returns the whole message and nothing else; terminates |
| MsgReader.MsgReader.ReadMessage | read.go:51-72 | what Read returns without an error is one whole message of at most the allowed size, unless the transport has reported an end inside it; an error is not the peer's fault, or the stream shows it, or more than allowed has come |
| MsgReader.MsgReader.WaitCloseHandshake | close.go:171-201 | from any state whose position is known: every frame of the drain is looked for at a boundary if nothing has failed before, and after a failure if and only if the frame it failed on was not begun or is gone; nothing is read after a valid close frame; it ends with the close frame received, with its status and reason, and otherwise because of the transport, a closed connection, or the refusal of the frame last looked for |
| Acceptance.NextWritten | read.go:303-334 | in any part of a written stream, what is read where k frames end is the next frame written, and never a negative length |
| Acceptance.PartWritten | read.go:551-566 | the part of a payload that has arrived is that part of what was written |
| Acceptance.PrefixAccepted | read.go:213-264 | any part of a written stream whose control frames fit holds nothing to refuse |
| Acceptance.RefusedExactly | read.go:213-345 | a written stream holds something to refuse if and only if a control frame does not fit; data frames, compressed or not, are always accepted |
| Acceptance.ControlRefused | write.go:254-256 | one more control frame makes an acceptable stream refused if and only if it is longer than 125 bytes or a malformed close frame |
| Exchange.WrittenMasksRight | write.go:280-288 | a server's frames arrive unmasked, as a client expects |
| Exchange.HeldIsWritten | read.go:527-568 | inside a frame or between frames, whether or not all of it has arrived: the frames taken mean the messages received and one that goes on behind what was delivered for exactly the rest of the frame |
| Exchange.ReceivedIsSent | read.go:505-568 | at any time, whatever the writes, keys, control frames, read sizes and however much of the last frame has arrived: the messages received are the first ones sent, what was returned of the current one begins the one sent in its place, and in its last frame exactly the rest of the frame is missing |
| Exchange.CompletedIsSent | read.go:505-568 | a message read to its end is the next one sent, byte for byte, with the marker behind it if compressed |
| Exchange.EverythingReceived | read.go:505-568 | a reader that used up all an idle writer wrote has received every message |
| Exchange.AcceptedByPeer | read.go:213-264 | a reader of the other role with the same compression, in step with what was written, never blames the peer if all control frames fit |
| Exchange.TooBigWasSent | read.go:591-611 | if a message was found too big, the one sent in its place is longer than allowed |
| Exchange.DryMeansMissing | read.go:505-568 | a reader that has run dry inside a message has not been delivered all of it |
| Exchange.CompleteMeansArrived | read.go:505-568 | a message read to its end has been delivered |
| Exchange.ReceiveNext | read.go:51-72 | message after message: without an error, Read returns the next one sent, byte for byte, if and only if all of it has been delivered, and otherwise the transport has reported an end; it fails only because of the transport, the end of the connection or a message longer than allowed |
| Writers.LockingStep | conn.go:437-463 | every step keeps exclusion as long as no close frame was sent, and keeps everybody off the buffer afterwards, although the deferred second unlock may free another goroutine's lock |
| Writers.BeginStep | write.go:273-308 | a goroutine that found no close frame sent finds nobody else at work |
| Writers.PutStep | write.go:376-385 | bytes move from the frame to the buffer in order |
| Writers.SpillStep | internal/bufio/bufio.go:420-452 | a full buffer goes onto the wire in order |
| Writers.Reaches | internal/bufio/bufio.go:393-411 | bytes that reach the wire are the next ones in lock order |
| Writers.AbandonStep | write.go:349-354 | a frame left in the buffer because of closedFlag is whole at a server and never leaves a client |
| Writers.FailStep | write.go:310-325 | a failed write freezes the wire at a prefix |
| Writers.StreamStep | write.go:259-344 | every step keeps wire, buffer and rest of the frame equal to the frames begun |
| Writers.InvRun | write.go:259-344 | the invariants hold after every run of any number of goroutines |
| Writers.WireSafe | write.go:259-344 | in every run with a write buffer of its own the wire is a prefix of whole frames in lock order; nothing follows a close frame at a client, nor at a server unless a close frame was abandoned in its buffer |
| Writers.PeerSees | write.go:327-341 | what a peer can parse from the wire is those frames in order, with at most one close frame, the last |
| Delivery.ForwardRun | write.go:310-341 | in every run, while nothing is shut nothing is lost, only final frames are flushed, and wire and frames begun only grow |
| Delivery.Delivered | write.go:323-341 | in every run, when a goroutine has its final frame through, that frame is the last one begun and everything begun is on the wire, to stay there |
| Delivery.CloseDelivered | write.go:330-341 | in every run, once a close frame counts as sent, a close frame is on the wire |
| Delivery.CanBeSent | write.go:259-344 | from every quiet point of every run, any frame can be written: the call succeeds, the lock is free again, and a final frame is on the wire |
| Progress.NobodyHangs | conn.go:427-463 | in every run, as long as a call has not returned some goroutine can take a step, one past the lock itself, and for one that waits whoever holds the lock |
| Progress.ExclusiveRun | conn.go:437-463 | the lock excludes in every run until a close frame has gone out and one has come in |
| Progress.ExcludesUntilAnswered | conn.go:437-463 | two goroutines have the lock at once only after that |
| Progress.LockLost | write.go:335-341 | and then they can: a run for any frames at either end |
| LostClose.LossRun | write.go:346-354 | in every run, a close frame left in a server's buffer stays the one lost, and the wire stands before it, or behind it with the room used up |
| LostClose.PassesOnlyOutOfRoom | write.go:346-354 | in every run of a server, bytes behind a close frame are on the wire only if one was left in the buffer and the bytes begun after it do not fit |
| LostClose.PassesExactlyOutOfRoom | conn.go:296-302 | from every state a run reaches with a close frame left in the buffer, another frame can get past it if and only if it does not fit |
| LostClose.LeavesClose | conn.go:296-302 | a run that leaves any close frame that fits in the buffer, and how long a frame has to be to get past it |
| Handles.BeginMeans | write.go:193-200 | what one more frame that begins means, whoever wrote it: the handle's message as far as it has begun, a control frame nothing, and a message begun twice no messages at all |
| Handles.InvRun | write.go:137-234 | the invariants of the locks, the frames and the messages hold after every run |
| Handles.BrokenExactly | write.go:137-344 | in every run, the frames that can be on the wire fail to be messages if and only if a handle has begun a message twice, and only a closing server can get there; a message whose final frame has begun is the last one sent |
| Handles.NeverInterleaved | write.go:137-344 | in every run of a client, and of a server where no handle goes on after its first frame was left behind, the peer sees the handles' messages one after the other, each whole, in the order of the locks, and perhaps a part of the next |
| Handles.FinishedIsSeen | write.go:203-234 | in every such run, each message whose final frame has gone through is complete at the peer: the frames on the wire hold the first messages sent, and at least as many as had been finished; the message of a handle on its way back is the last of those |
| Handles.LockKept | write.go:114-135 | in every run the lock on the message writer stays held for good only behind a streamed message whose final frame has failed |
| Handles.FirstFails | write.go:346-354 | a run in which a server's handle has its first frame left in the buffer and may go on, for every frame that fits |
| Handles.GoingOnBreaks | write.go:193-234 | and if it goes on, the peer finds a message beginning inside a message, for all payloads of which the first fits the buffer and the second does not fit it twice |
| Close.WireCodes | close.go:258-272 | the valid status codes are 1000 to 1003, 1007 to 1014 and 3000 to 4999 |
| Close.CodeRoundTrip | close.go:233-272 | every valid status code comes back from its two bytes |
| Close.CloseRoundTrip | close.go:143-157 | a close payload takes at most 125 bytes and is read back as sent, if and only if no reason went with status 1005; only that status has no payload |
| Close.Sendable | close.go:275-300 | what can be sent: status 1005, or a status that may travel with at most 123 bytes of reason |
| Close.Readable | close.go:233-256 | what is accepted: nothing, which means 1005, or two bytes of a status that may travel and any reason |
| Close.CloseEcho | close.go:233-300 | an accepted payload is what sending its content back would produce |
| Handshake.WriteClose | close.go:143-169 | what cannot travel is refused with nothing sent; otherwise, without trouble outside, exactly this close frame is sent unless one was before, and that is no error |
| Handshake.CloseHandshake | close.go:130-141 | succeeds only with a close frame of the same status; without trouble in sending, and with the peer's close frame there, if and only if that one is valid and has the same status; with one received before, if and only if that has the same status |
| Timer.FirstIsLeast | core/timer/timer.go:204-236 | the first entry of the heap is due first |
| Timer.RiseStep | core/timer/timer.go:239-248 | swapping an entry with its parent moves the only disorder up |
| Timer.SinkStep | core/timer/timer.go:251-270 | swapping an entry with its earlier child moves the only disorder down |
| Timer.LastIntoHole | core/timer/timer.go:169-173 | replacing an entry by the last one disturbs the order around it only |
| Timer.Timer.constructor | core/timer/timer.go:53-77 | an empty heap, a full free list, a capacity of at least one |
| Timer.Timer.Grow | core/timer/timer.go:80-89 | a batch of new entries linked in order |
| Timer.Timer.Get | core/timer/timer.go:92-100 | an entry that is neither in the heap nor free any more, new or from the free list |
| Timer.Timer.Put | core/timer/timer.go:103-110 | the entry goes to the front of the free list |
| Timer.Timer.Swap | core/timer/timer.go:278-282 | exchanges two entries and keeps every entry's index right |
| Timer.Timer.Up | core/timer/timer.go:239-248 | restores order among the first n, keeping the entries and the rest of the array |
| Timer.Timer.Down | core/timer/timer.go:251-270 | leaves at most one entry that may still have to rise |
| Timer.Timer.Remove | core/timer/timer.go:158-179 | removes exactly the given entry if and only if it is in the heap, and keeps order and indexes |
| Timer.Timer.GuardIsMembership | core/timer/timer.go:158-166 | the guard decides membership exactly, for every entry whatever its index says |
| Timer.Timer.Insert | core/timer/timer.go:143-155 | adds exactly the entry, keeps order, and arms the signal if the entry is due first |
| Timer.Timer.Add | core/timer/timer.go:114-127 | nothing for a delay that is not positive; otherwise one entry that nobody held is armed for now plus the delay |
| Timer.Timer.Del | core/timer/timer.go:130-140 | cancels the entry if it is running, frees it in any case, and drops its callback |
| Timer.Timer.Set | core/timer/timer.go:182-193 | the entry is due at the new time only, whether it was running, had fired or was stopped |
| Timer.Timer.ExpireRound | core/timer/timer.go:204-236 | either the entry due first fires, not before its time, or the goroutine parks until the first one is due, and every remaining entry is still to come |
| Timer.Timer.Wake | core/timer/timer.go:196-201 | the goroutine goes back to expire and nothing else changes |
| Timer.Timer.Stop | core/timer/timer.go:293-304 | the heap is emptied; later Add, Set and Del still work |
| Timer.Timer.NoLostWakeUp | core/timer/timer.go:143-236 | whenever the goroutine waits and the first entry is due, its signal is due too |
| TimerLedger.FireSound | core/timer/timer.go:217-227 | firing the entry due first keeps every promise |
| TimerLedger.ArmSound | core/timer/timer.go:114-127 | a new ticket is not due before anything that has fired |
| TimerLedger.CancelSound | core/timer/timer.go:158-179 | cancelling keeps every promise, for an entry in or out of the heap |
| TimerLedger.RunSound | core/timer/timer.go:114-236 | over every run: callbacks fire in the order they were due, never early, at most once for each Add or Set; tickets are conserved and the record is only appended to |
| TimerLedger.RunRecorded | core/timer/timer.go:217-227 | over every run the record grows by exactly the firings, in order, with their times |
| BufferPool.Pool.constructor | core/pool/buffer.go:47-55 | a pool with its first batch free |
| BufferPool.Pool.Cut | core/pool/buffer.go:58-66 | a slab cut into stretches of the configured length, one behind the other |
| BufferPool.Pool.AddApart | core/pool/buffer.go:58-68 | new stretches share no byte with each other or with older ones |
| BufferPool.Pool.Get | core/pool/buffer.go:71-83 | a buffer that nobody else has, sharing no byte with any that is out |
| BufferPool.Pool.Put | core/pool/buffer.go:86-94 | the buffer is free again, and the free list holds exactly those that are not out |
| SlidingWindow.LastOfLast | compress.go:217-234 | keeping only the last n bytes in between loses nothing of the last n in the end |
| SlidingWindow.LastAreLast | compress.go:217-234 | the window is the end of what was written, and all of it if nothing comes before |
| SlidingWindow.SlidingWindow.constructor | compress.go:192-208 | an empty window, of 32768 bytes if no size is given |
| SlidingWindow.SlidingWindow.Write | compress.go:217-234 | the window is the last min(capacity, total) bytes of everything written |
| SlidingWindow.SlidingWindow.WriteAll | read.go:512-516 | the pieces a message is read in do not matter, only what they add up to |
| SlidingWindow.SlidingWindow.Dictionary | read.go:159-163 | the dictionary is the end of all decompressed data |
| Negotiation.String | compress.go:64-73 | prints the extension with its parameters |
| Negotiation.HeaderTokens | accept.go:339-350 | the trimmed comma-separated tokens of all values in order |
| Negotiation.WebsocketExtensions | accept.go:316-337 | the extensions of a header field with trimmed parameters, empty tokens left out |
| Negotiation.AcceptDeflate | accept.go:278-300 | accepted if and only if every parameter is understood; each side gives up its context if the mode or a parameter says so |
| Negotiation.SelectDeflate | accept.go:260-276 | the first acceptable offer, or none |
| Negotiation.VerifyServerExtensions | dial.go:272-304 | nothing for no answer; refused for a second or unknown extension, an unknown parameter or one never offered |
| Negotiation.ApplyAnswer | dial.go:286-301 | the offered options with those of the answer added |
| Negotiation.PrintParses | accept.go:316-350 | printing any extension without separators in its names and parsing it gives it back |
| Negotiation.BlanksTrimmed | accept.go:339-350 | blanks and tabs before and behind a text do not count |
| Negotiation.LineParses | accept.go:316-350 | a header field that lists any extensions is read as those extensions, in order |
| Negotiation.OfferTaken | accept.go:260-300 | any offers as written in the header field: compression is used if and only if it is wanted and some offer can be taken, which says what parameters may be there by their spelling; the first such offer counts; a context is given up if the mode or that offer says so |
| Negotiation.AnswerTaken | dial.go:272-304 | any answer as written: nothing if there is none, and otherwise a single one whose parameters, by their spelling, can be taken, to an offer that was made |
| Negotiation.TermsTaken | accept.go:278-300 | the two takeover flags, the client's window with or without any size and the server's window of 15 bits make up an offer that is taken, with the options the flags and the mode give |
| Negotiation.HeaderParses | compress.go:64-73 | the header field either end sends for its options parses to exactly those options |
| Negotiation.EndsAgree | dial.go:113-116 | for every pair of modes both ends end up with the same options or both with none, and which |
| Negotiation.WritersMatchReaders | write.go:93-98 | each writer's context takeover is the one its peer's reader expects, and both or neither end takes compressed frames |
| Witnesses.ErrorBeforeByte | internal/bufio/bufio.go:197-225 | two bytes that come with an error, a read of one byte and an empty read: the error is reported with the second byte unread, and forgotten |
| Witnesses.AbandonedPayloadIsParsed | read.go:438-465 | a message abandoned unread: the next one returned is a frame inside its payload, at no frame boundary, for any two such frames |
| Witnesses.RefusedPayloadIsParsed | read.go:215-262 | a frame refused for its header whose payload begins with a frame: the next call starts in the payload, at no boundary, and returns that frame, for any two such frames |
| Witnesses.CloseEndsReading | read.go:395-436 | behind a close frame the next call returns the message that follows if and only if the payload is malformed, for every payload of at most 125 bytes |
| Witnesses.TruncatedLooksComplete | read.go:318-334 | a stream that ends inside a payload: the read after its last byte reports io.EOF and the message is not complete, for any frame and any place |

## Left out

- DEFLATE itself, its readers, writers and caches: the compressor emits arbitrary pieces, the decompressor is not modelled, and `Read` on a compressed message is modelled up to the decompressor's input, where the size limit does not apply.
- FrameReader.Conn.HandleControl: records a close frame and refuses a bad one but sends neither the answering close frame nor the one that reports the violation; sending is covered by `Writers`.
- FrameReader.Conn.ReadNext: the close frame that reports a violation is not sent; and a client does not check whether server frames are masked, so what it delivers is only specified for servers that do not mask (`MsgReader.PeerMasksRight`, proved of this library's servers in `Exchange`).
- MsgReader.MsgReader.ReadLimited: bounds uncompressed messages; the limit on the decompressed bytes of compressed ones belongs to the decompressor's output.
- MsgReader.MsgReader.Read: for a compressed message, returns the decompressor's input.
- MsgReader.MsgReader.ReadAll: the same.
- MsgReader.MsgReader.ReadMessage: the same, and without a limit.
- MsgWriter.MsgWriter.WriteSingle: the branch of `Conn.write` without compression; `MsgWriter.MsgWriter.WriteMessage` has both.
- MsgWriter.MsgWriter.WriteControl: requires close, ping or pong; the exported method takes any opcode, of which the peer refuses the reserved ones, and with a data opcode it would send a data frame past the message lock.
- FrameWriter.Conn.WriteFrame: the payload is an immutable value, so that the caller's slice stays unchanged holds by construction.
- Handshake.CloseHandshake: `Close` goes on to close the connection and wait for its goroutines, and the wait has a time limit; neither is modelled.
- Timer.Timer.Add: times are unbounded integers read once per critical section; overflow of the clock and time passing inside a section are not modelled, and callbacks are identified by numbers.
- Timer.Timer.Put: requires an entry that is not free; the source links in whatever it is given.
- Timer.Timer.Del: requires an entry that is not on the free list already; a second Del of one entry would put it there twice.
- Timer.Timer.Set: requires an entry that has not been freed.
- MsgWriter.MsgWriter.Write: requires a handle that is the current one or has been closed; one that was superseded by a later message's shares that message's state, and a message of one frame leaves it open without the lock.
- MsgWriter.MsgWriter.Close: the same.
- BufferPool.Pool.Put: requires a buffer that is out; the source does not check.
- BufioWriter.Sink.Write: a client's sink may also report no bytes and an error after writing all of them, when the connection is closed meanwhile (conn.go:163-172).
- Writers.WireSafe: presumes a write buffer of the connection's own; with a pool of write buffers, closing gives the buffer back (conn.go:329-333) while a goroutine may still be copying into it.
- Handles.NeverInterleaved: each handle is used by one goroutine at a time, as its own lock makes sure, and not after the message is over; compression shows in what the frames carry only.
- SlidingWindow.SlidingWindow.Write: what is written to the window is the decompressor's output, which `MsgReader` does not compute.
- The capacity of the timer's and the pool's batches is unbounded; allocation always succeeds.
- The Event read path, heartbeats, metadata and middleware.
- The HTTP handshake around the negotiation: origin checks, keys, subprotocols, hijacking and dialling.
- Contexts, deadlines and timeouts: every step may fail, find the connection closed, or close it.
- The second unlock of `readMu` when a close frame is answered, and the return of pooled buffers when a connection closes.
- `extractBufioWriterBuf`: the writer is given its stretch of the slab directly.
- `ReadLine`, `WriteString` and the other convenience methods of the buffered reader and writer, and the assembly masks, which are disabled.
