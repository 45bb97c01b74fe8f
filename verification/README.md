# A verified model of libcomm's link layer

libcomm connects the microcontrollers of a MIDI-to-PWM converter. This project models three of its parts and
proves properties of them over all inputs and all runs:

- **Framing** (`FrameTransport`): version, type, 16-bit sequence number, 32-bit payload length, payload, CRC-32,
  all little-endian; the table-driven CRC, the sequence counter, sending through two shared buffers, and the
  check of a received frame.
- **Stream processing** (`StreamProcessor`): a 4108-octet buffer into which arbitrary chunks are appended, a loop
  that extracts complete frames, resynchronisation on the version octet after a bad length or a failed check,
  and shifting in place.
- **Firmware update** (`OtaManager`): a state machine that drives a flash writer whose replies are arbitrary.

`dafny verify dfyconfig.toml` checks everything.

## How it is organised

| file | content |
|---|---|
| `Bytes.dfy` | unsigned arithmetic: exclusive or, bits, little-endian fields |
| `Crc32.dfy` | the bitwise CRC-32 of section 8 of RFC 1952, the lookup table and the table-driven loop, the constancy of the residue, burst detection |
| `Residue.dfy` | the value of the residue, computed on hexadecimal digits |
| `Frame.dfy` | the frame format as a relation between octets and (sequence number, payload) |
| `FrameTransport.dfy` | `BuildFrame`, `Send`, `HandleIncoming` over arrays; the sequence counter |
| `Parser.dfy` | one extraction, as a function on octet strings |
| `Chunking.dfy` | when a cut between chunks is invisible |
| `Feeding.dfy` | whole runs: feeds of any size, overflow, missing callback, reset |
| `Callbacks.dfy` | each operation in octets and events: what the callbacks see, what goes, what stays |
| `Completeness.dfy` | what becomes of a frame anywhere in the accepted octets, over one extraction and over whole runs |
| `Delivery.dfy` | streams of frames, recovery, loss by overflow, the round trip from sender to receiver |
| `StreamProcessor.dfy` | the class over its array, proved to compute `Parser` and `Feeding` in place |
| `Ota.dfy` | the update state machine, as a function of state, message and writer replies |
| `OtaRuns.dfy` | whole runs of it: bracketing, activation, progress |
| `OtaOutcomes.dfy` | failures and their causes, what may be asked of the writer, what a listener knows |
| `OtaOrder.dfy` | the order of writer calls and reports, as a protocol |
| `OtaManager.dfy` | the class and its flash writer, proved to follow `Ota`, to stay on a run and to keep the order |

`std::uint8_t`, `uint16_t` and `uint32_t` are integers within their bounds; `>>` and `&` with a mask are division
and remainder by a power of two, `^` is the recursive function `Xor`, and wrap-around is written out.
`std::size_t` is unbounded. A callback is modelled by whether it is registered and by a record of the calls
made to it and of its answers; what a callback or the flash writer answers is arbitrary. A null pointer is a nullable array.

Some long bodies of the source are split into several methods (`extractFrames` into `ExtractStep`, `ProcessHead` and
`Dispatch`; the repeated "report, search, else drop" sequence is `Resynchronise`; the octets that `BuildFrame` and
`TransmitFrame` both write are `FillFrame` with `FillBody` and `PutPayload`; `handleBegin` and `handleEnd` continue in
`Prepare`, `ApplyImage` and `SwitchImage`; `feed`, `Send` and the update handlers have a body (`FeedBytes`, `SendBytes`
and so on) and a wrapper that keeps the record of the run). Each keeps the branches and their order.

## What the source turns out to do

Three properties that one would expect hold only under a condition, which is proved to be exact; each comes with an
input at which it fails:

- **Chunk boundaries.** Cutting a chunk in two is invisible unless extracting from the first part fails a search for the
  version octet (`Chunking.SplitExactly`, `Feeding.FeedSplitExactly`). After such a failure it is invisible exactly
  if the second part is empty; or holds no version octet and no failed search followed an oversized length claim; or
  starts with the version octet and the one failed search was the last step and emptied the buffer. Eight octets of
  0xFF and then a zero show the difference (`Chunking.CutCanShow`).
- **Recovery.** Garbage in front of valid frames is skipped unless the length it seems to claim fits the buffer but
  has not arrived yet; then nothing is extracted (`Delivery.RecoveryExactly`). `Delivery.RecoveryCanStall` gives eight
  octets that hold up any frame behind them that is shorter than 4000.
- **Overflow.** An overflow drops a complete frame exactly if one waits at the head of the buffer
  (`Delivery.OverflowDropsExactly`). The path of `feed` that discards a chunk returns without extracting, so that such
  a frame does arise, and the next chunk that does not fit drops it undelivered (`Delivery.OverflowLosesFrame`). A
  caller can rule it out from the history of calls: from an empty buffer, if no chunk was discarded since the last one
  that was taken in, or since the last reset, no complete frame waits at the head (`Delivery.CalmHistoryLosesNothing`);
  so in particular if every chunk was taken in (`Delivery.AcceptedHistoryLosesNothing`).

Chunk counts of an update are 16 bits wide: a transfer of 65536 chunks more than announced is activated
(`OtaRuns.OverlongTransferActivates`); below 65536 chunks the announced count is met exactly.

The repository's own documentation and tests differ from the code in places, and the model follows the code: there
are no ACK or NACK frames and no retries in the transport, and the "not idle" error that one update test expects
cannot occur, because `handleBegin` first aborts whatever session is under way.

## Model

| member | source | states |
|---|---|---|
| Bytes.XorBits | src/frame_transport.cpp:34 | the modelled exclusive or acts on each bit separately |
| Crc32.GenerateLookupTable | src/frame_transport.cpp:19-44 | entry i of the generated table is the register after octet i has been shifted through bit by bit |
| Crc32.TableStepCorrect | src/frame_transport.cpp:63-66 | one table lookup has the effect of reading the eight bits of the octet one at a time |
| Crc32.ComputeCrc32 | src/frame_transport.cpp:55-69 | the table-driven loop returns the bitwise CRC-32 of section 8 of RFC 1952, for every string of octets |
| Crc32.RunDifference | src/frame_transport.cpp:33-37 | two registers reading different bits end with a given difference exactly when they started with the difference those bits spell; the table, residue and burst results are instances |
| Residue.ResidueValue | src/frame_transport.cpp:186-188 | the CRC over any message and its own little-endian CRC is 0x2144DF1C |
| Crc32.ResidueExactly | src/frame_transport.cpp:252-257 | a message followed by four octets has the residue of any other message exactly when the octets are its CRC |
| Residue.ResidueCharacterises | src/frame_transport.cpp:252-257 | a message followed by four octets has the CRC 0x2144DF1C exactly when the octets are its own CRC |
| Crc32.BurstDetected | src/frame_transport.cpp:55-69 | two strings that agree outside some 32 consecutive bits and have the same CRC are equal |
| Frame.EncodeAccepted | src/frame_transport.cpp:149-191 | a built frame passes the receiver's checks and yields its payload and sequence number, for every payload below 2^32 octets |
| Frame.FrameOnWire | src/frame_transport.cpp:97-116 | a frame octet by octet: version 1, type, sequence number and length least significant octet first, payload, and the CRC of all that, least significant octet first |
| Frame.DataFrameOnWire | src/frame_transport.cpp:173-180 | the eight octets in front of a data frame |
| Frame.AcceptedEncodes | src/frame_transport.cpp:228-266 | a string of octets that passes the checks is the frame built from the sequence number and payload read out of it |
| Frame.AcceptsExactlyEncoded | src/frame_transport.cpp:216-282 | the receiver accepts exactly the frames that can be built |
| Frame.AcceptsByResidue | src/frame_transport.cpp:241-266 | with version, type and length in order, a frame is accepted exactly if its CRC over everything is 0x2144DF1C |
| Frame.BurstRejected | src/frame_transport.cpp:228-261 | a valid frame of any length changed only within 32 consecutive bits, wherever they lie, is rejected |
| Frame.FourOctetsRejected | src/frame_transport.cpp:228-261 | so is one changed only within four consecutive octets |
| FrameTransport.FillFrame | src/frame_transport.cpp:97-116 | whatever the buffer held before, it then starts with the frame of the payload and is unchanged behind it |
| FrameTransport.BuildFrame | src/frame_transport.cpp:149-191 | refuses exactly payloads over 4096 octets, short buffers and null buffers, without writing; otherwise the output is the frame, which `Frame.DataFrameOnWire` spells out. A null payload pointer sends what the output buffer held; a payload inside the output buffer is read after the header is written, and only the overlap that `memcpy` forbids is excluded |
| FrameTransport.AllocatedClosedForm | src/frame_transport.cpp:128-146 | the k-th sequence number, counted from zero, is 1 + k mod 65535 |
| FrameTransport.AllocationsDistinct | src/frame_transport.cpp:128-146 | any 65535 consecutive sequence numbers are distinct, and none is zero |
| FrameTransport.ConsumedCounts | src/frame_transport.cpp:193-205 | the numbers used up are as many as the messages, oversized ones included |
| FrameTransport.NextSentFrame | src/frame_transport.cpp:202-205 | a message that fits is sent next, with number 1 + (messages before it) mod 65535 in its sequence field |
| FrameTransport.SentFrameAt | src/frame_transport.cpp:193-214 | every frame written in a history, by its index, carries the payload of one request and the number that counts the messages before it |
| FrameTransport.SentFrameOf | src/frame_transport.cpp:193-214 | and every message that fits has its frame, at the index after those of the requests before it |
| FrameTransport.SentNumbersDiffer | src/frame_transport.cpp:128-146 | two frames fewer than 65535 messages apart carry different numbers |
| FrameTransport.Transport.constructor | src/frame_transport.cpp:50-53 | a new transport has allocated no number and given the writer nothing |
| FrameTransport.Transport.NextSequence | src/frame_transport.cpp:128-146 | returns the current number and moves to its successor, skipping zero |
| FrameTransport.Transport.TransmitFrame | src/frame_transport.cpp:71-126 | hands the writer exactly the frame, with no trace of what either shared buffer held, and returns the writer's reply; the two buffers alternate, and the one not in use keeps the frame before. Without a writer or with a payload over 4096 octets it hands over nothing, touches no buffer and fails |
| FrameTransport.Transport.Send | src/frame_transport.cpp:193-214 | hands the writer the data frame of the payload under the next number and returns its reply; a null payload with a size uses no number, an oversized payload uses one, and both hand over nothing and fail. The next number and the writer's own record stay determined by the history of requests |
| FrameTransport.HandleIncoming | src/frame_transport.cpp:216-282 | calls the handler once with the payload if the octets form an acceptable frame, and then returns its reply; otherwise it calls nothing and fails |
| Parser.ExtractConserves | src/stream_processor.cpp:100-167 | delivered and dropped octets, in order, followed by what is left, are the buffer as it was |
| Feeding.ExtractSound | src/stream_processor.cpp:133-151 | every frame that an extraction delivers passes all checks and fits the capacity |
| Parser.ExtractSettles | src/stream_processor.cpp:100-131 | the loop ends where it would do nothing more, with at most 4107 octets left |
| Chunking.StepExtends | src/stream_processor.cpp:100-197 | any step but a failed search is taken in the same way whatever octets follow |
| Chunking.CleanSplit | src/stream_processor.cpp:100-197 | if the first part fails no search, extracting twice takes the same steps and leaves the same buffer as extracting once |
| Chunking.SplitExactly | src/stream_processor.cpp:100-197 | the exact condition under which callbacks and buffer are the same with and without the cut |
| Chunking.CutCanShow | src/stream_processor.cpp:109-117 | eight octets of 0xFF, then a zero: the cut between them shows |
| Feeding.FeedSplitExactly | src/stream_processor.cpp:19-58 | the same for two calls of `feed` whose chunks fit together |
| Feeding.PerformBound | src/stream_processor.cpp:19-64 | the buffer between calls holds at most 4107 octets |
| Feeding.RunConserves | src/stream_processor.cpp:19-64 | in every run of feeds and resets, with or without callbacks, the accepted octets are those that left the buffer, in order, followed by its contents |
| Feeding.RunSound | src/stream_processor.cpp:133-151 | every frame delivered in a run is one that a sender could have built |
| Feeding.RunWindows | src/stream_processor.cpp:143-164 | the octets of every step of a run, the last one included, are a window of the accepted stream, and later steps start behind it: delivered frames are substrings, disjoint and in the order of delivery |
| Feeding.RunAccounting | src/stream_processor.cpp:31-64 | accepted = delivered + dropped + buffered, in octets |
| Feeding.SingleOctetsNeverOverflow | src/stream_processor.cpp:31-48 | feeding octet by octet never overflows |
| Callbacks.ExtractionStarts | src/stream_processor.cpp:100-167 | one iteration, for every buffer: wait for an incomplete header or frame; report a claim over 4108 or a failed check, attempt recovery, and let go of the octets before the next version octet, or else of the buffer or of the rejected frame; deliver the payload of an acceptable frame |
| Callbacks.UnheardFeed | src/stream_processor.cpp:19-29 | a null or empty chunk is not noticed; a chunk without a frame callback is reported as InvalidHeader and turned away, and the buffer stays |
| Callbacks.OverflowingFeed | src/stream_processor.cpp:31-57 | a chunk that does not fit: overflow and recovery are reported, the octets before the next version octet go, or all; then the chunk is appended and extracted from if it fits now, and discarded if not |
| Completeness.NothingMissed | src/stream_processor.cpp:100-197 | a frame that starts anywhere in the octets an extraction takes, even if part of it has yet to arrive, is delivered, or its first octet lies inside a delivered one |
| Completeness.RunMissesNothing | src/stream_processor.cpp:19-64 | the same over every run, with any garbage, cuts, overflows and resets: the only other fates of a frame are to be cleared by a reset or to be at the head of the buffer when an overflow drops it |
| Delivery.FittingFeedsMissNothing | src/stream_processor.cpp:50-57 | if all chunks fit, neither of these happens: no frame in the stream is lost, whatever surrounds it |
| Delivery.RecoveryExactly | src/stream_processor.cpp:109-131 | garbage before frames: all are delivered exactly if the length claimed by the garbage is over capacity or already there, else nothing happens |
| Delivery.RecoveryCanStall | src/stream_processor.cpp:119-131 | eight octets of garbage behind which a complete frame is not extracted |
| Delivery.GarbageDiscarded | src/stream_processor.cpp:152-165 | what is reported and dropped in that case is the garbage and nothing else, with the error its length claim calls for |
| Delivery.OverflowDropsExactly | src/stream_processor.cpp:38-41 | an overflow drops a complete frame if and only if one waits at the head of the buffer |
| Delivery.CalmHistoryLosesNothing | src/stream_processor.cpp:31-64 | none does if, since the last chunk that was taken in or the last reset, no chunk was discarded |
| Delivery.AcceptedHistoryLosesNothing | src/stream_processor.cpp:31-64 | so no overflow drops a complete frame after a history in which every nonempty chunk that somebody listened for was taken in |
| Delivery.OverflowLosesFrame | src/stream_processor.cpp:43-47 | such a buffer does arise, and the frame at its head is then dropped by the next overflow |
| Delivery.PrefixClean | src/stream_processor.cpp:100-131 | no prefix of a stream of frames makes the extraction search |
| Delivery.ChunksInvisible | src/stream_processor.cpp:50-57 | a run of feeds that fit does what one extraction from everything would, if no prefix fails a search |
| Delivery.StreamRoundTrip | src/stream_processor.cpp:50-57 | a stream of frames cut in any way into chunks that fit is delivered frame by frame, with no error and nothing left |
| Delivery.LinkRoundTrip | src/frame_transport.cpp:193-214 | from any history of send requests to the receiver's callbacks: exactly the transmitted payloads, in order |
| Delivery.SmallChunksFit | src/stream_processor.cpp:31-32 | chunks of one octet always fit, so that the round trip then needs no assumption |
| StreamProcessor.StreamProcessor.constructor | src/stream_processor.cpp:14-17 | starts with an empty buffer and no callbacks |
| StreamProcessor.EverythingVisible | src/stream_processor.cpp:199-204 | with an error callback registered, every event of a run is a call |
| StreamProcessor.FramesVisibleInPlace | src/stream_processor.cpp:199-204 | without one, exactly the delivered frames are, each in its place |
| StreamProcessor.LogHoldsFrames | src/stream_processor.cpp:85-98 | the calls of the frame callback over a history are the payloads of the frames delivered in its run, in order |
| StreamProcessor.StreamProcessor.ReportError | src/stream_processor.cpp:199-204 | exactly one call, with the error, if the error callback is registered, and none otherwise |
| StreamProcessor.StreamProcessor.ShiftLeft | src/stream_processor.cpp:143-151 | the forward overlapping copy leaves exactly the octets from the given position on |
| StreamProcessor.StreamProcessor.TrySync | src/stream_processor.cpp:172-197 | reports the attempt; moves the first version octet after the head to the front, or leaves the buffer alone and fails |
| StreamProcessor.StreamProcessor.Resynchronise | src/stream_processor.cpp:152-164 | error, attempt, and the drop up to the version octet or of the fallback amount |
| StreamProcessor.StreamProcessor.Dispatch | src/stream_processor.cpp:85-98 | passes the payload of an acceptable frame to the callback, once |
| StreamProcessor.StreamProcessor.ExtractStep | src/stream_processor.cpp:101-166 | one iteration of the loop in place does what `NextStep` says |
| StreamProcessor.StreamProcessor.ExtractFrames | src/stream_processor.cpp:81-170 | the loop in place yields the callbacks and the buffer of `Extract`, terminates, and reports whether a frame was delivered |
| StreamProcessor.StreamProcessor.Feed | src/stream_processor.cpp:19-58 | for null, empty, unheard, overflowing and fitting chunks alike, the buffer is that of the run of all operations so far, and the calls are all its events, or only the frames if no error callback is registered |
| StreamProcessor.StreamProcessor.Reset | src/stream_processor.cpp:60-64 | empties the buffer, as one operation of the run |
| StreamProcessor.StreamProcessor.GetBufferUsage | src/stream_processor.cpp:76-79 | the number of buffered octets, always below the capacity |
| OtaRuns.CallsInPlace | src/ota_manager.cpp:37-215 | in every run the writer is begun only when no session is open and used only inside one; a session is open exactly while the manager is not Idle, and between messages it is Idle, Receiving or Rebooting |
| OtaRuns.BeginsSeparated | src/ota_manager.cpp:37-80 | between two begins there is an abort |
| OtaRuns.SessionAccounting | src/ota_manager.cpp:82-92 | begins plus empty typed chunks received in Idle equal aborts plus one if a session lives |
| OtaRuns.ReceivingInSession | src/ota_manager.cpp:96-132 | Receiving is only reached by an accepted begin followed by stored, in-order, nonempty chunks and nothing else |
| OtaRuns.ActivatesExactly | src/ota_manager.cpp:151-190 | activation is called exactly when such a session of the announced length modulo 2^16 is ended and the writer finishes and verifies |
| OtaRuns.ActivationTrace | src/ota_manager.cpp:151-197 | wherever an activation is among the writer's calls of a run, the calls up to it end with begin, the session's chunks in order, finish, verify with the announced CRC, activate, with nothing in between; below 2^16 chunks their number is the announced one |
| OtaRuns.OverlongTransferActivates | src/ota_manager.cpp:132 | 65536 chunks too many are not noticed |
| OtaRuns.StoresEffect | src/ota_manager.cpp:123-143 | any number of stored chunks writes exactly those chunks and advances only the counter, modulo 2^16 |
| OtaRuns.SessionReports | src/ota_manager.cpp:137-143 | the progress reports of a session are those about its chunks, and how many there are |
| OtaRuns.ReportCount | src/ota_manager.cpp:137-143 | closed form of the number of reports about n chunks for every n, wrap-around included |
| OtaRuns.ReportsIncrease | src/ota_manager.cpp:132-143 | until the counter wraps, reported counts strictly increase |
| OtaOutcomes.FailuresExactly | src/ota_manager.cpp:37-215 | a message is reported as failed for a cause if and only if that cause holds; the report is then the last, with status Error and the cause, the writer's last call is abort (a size out of bounds only aborts a live session), and the manager is Idle |
| OtaOutcomes.StateAfterFailure | src/ota_manager.cpp:37-215 | what each failure leaves in the counters |
| OtaOutcomes.WithoutFailure | src/ota_manager.cpp:37-215 | a message that fails for no cause starts a session, stores a chunk, ends the session, or has no effect at all |
| OtaOutcomes.BeginExactly | src/ota_manager.cpp:37-80 | a begin message with a size out of bounds starts nothing and makes one report; any other starts the writer once |
| OtaOutcomes.EndExactly | src/ota_manager.cpp:151-197 | at the end of a complete transfer, finish, verify and activate are asked for up to the first refusal, which is followed by abort |
| OtaOutcomes.ReportsCarryCounts | src/ota_manager.cpp:21-30 | every report carries the counts that its message leaves |
| OtaOutcomes.EveryCallExplained | src/ota_manager.cpp:37-215 | every writer call in a run comes from a turn that calls for it, with that turn's data; begin only from a begin message, with its size, which is positive and within the writer's maximum |
| OtaOutcomes.ExplainedAreCalled | src/ota_manager.cpp:37-215 | and every call that a turn calls for is made |
| OtaOutcomes.RebootingExactly | src/ota_manager.cpp:187-196 | in every run the manager rests in Rebooting exactly if the writer's last call was a successful activation |
| OtaOutcomes.ListenerKnows | src/ota_manager.cpp:21-30 | in every run the last report tells the status (Error for Idle) and the announced total |
| OtaOutcomes.ChunkReportsExactly | src/ota_manager.cpp:137-143 | a stored chunk is reported exactly if its count is the total or a multiple of fifty |
| OtaOrder.ActivationAnnounced | src/ota_manager.cpp:170-190 | directly before an activation came finish, the report of verifying, verify, and the reports of applying and rebooting, in this order |
| OtaOrder.CallsAnnounced | src/ota_manager.cpp:66-79 | preparing is reported directly before begin, and the abort comes directly before its error is reported |
| OtaManager.OtaManager.constructor | src/ota_manager.cpp:9-14 | starts Idle, on the empty run |
| OtaManager.OtaManager.TransitionTo | src/ota_manager.cpp:21-30 | changes the status and reports it with the counters, if anybody listens |
| OtaManager.OtaManager.HandleBegin | src/ota_manager.cpp:37-80 | state, writer calls and reports stay those of the run of all messages, to which `OtaOutcomes` applies, and calls and reports keep the order of `OtaOrder` |
| OtaManager.OtaManager.HandleRawData | src/ota_manager.cpp:96-144 | the same, with the raw form's silence outside Receiving |
| OtaManager.OtaManager.HandleTypedData | src/ota_manager.cpp:82-94 | the same, with the typed form's abort on an empty chunk in every state |
| OtaManager.OtaManager.HandleEnd | src/ota_manager.cpp:151-197 | the same, through finish, verify and activate |
| OtaManager.OtaManager.HandleAbort | src/ota_manager.cpp:204-215 | the same; ignored in Idle |
| OtaManager.OtaManager.GetStatus | src/ota_manager.cpp:16-19 | the status between calls is Idle, Receiving or Rebooting |

## Left out

- The global table array: the CRC loop reads the sequence that `GenerateLookupTable` is proved to produce.
- Changes of the flash writer's disposition while one message is handled: a handler asks each operation at most once, so this loses no behaviour.
- Mutexes: calls on one object are taken to be atomic.
- Re-entrant callbacks that call back into the same object.
- Host endianness and unaligned reads: fields are little-endian octets.
- Logging, and the texts of the stream processor's error messages (the error kind is kept).
- The FlatBuffers envelopes and the MIDI, PWM, OTA and log endpoints: generated or library code and flat dispatch.
- The D-Bus transport, the example programs and the build files.
