/**
 The update manager and the flash writer it drives.  Every handler is proved to do what `Ota.Handle` says, so
 the history of handled messages is a run in the sense of OtaRuns.dfy.
 */
module OtaManager {
  import opened Bytes
  import opened Ota
  import opened OtaRuns
  import opened OtaOrder

  /**
   The flash writer: any implementation, with a record of the calls made to it.  `replies` is what it will
   answer to the message being handled; it may be anything, and may change between messages.
   */
  class FlashWriter {
    var replies: Replies
    ghost var calls: seq<Call>

    constructor (replies: Replies)
      ensures calls == [] && this.replies == replies
    {
      this.replies := replies;
      calls := [];
    }

    method ChangeReplies(replies: Replies)
      modifies `replies
      ensures this.replies == replies
    {
      this.replies := replies;
    }

    method MaxFirmwareSize() returns (size: uint32)
      ensures size == replies.maxSize
    {
      size := replies.maxSize;
    }

    method Begin(size: uint32) returns (ok: bool)
      modifies `calls
      ensures ok == replies.begin && calls == old(calls) + [Call.Begin(size, ok)]
    {
      ok := replies.begin;
      calls := calls + [Call.Begin(size, ok)];
    }

    method WriteChunk(index: uint16, data: array<byte>, length: nat) returns (ok: bool)
      requires length <= data.Length
      modifies `calls
      ensures ok == replies.write && calls == old(calls) + [Write(index, data[..length], ok)]
    {
      ok := replies.write;
      calls := calls + [Write(index, data[..length], ok)];
    }

    method Finish() returns (ok: bool)
      modifies `calls
      ensures ok == replies.finish && calls == old(calls) + [Call.Finish(ok)]
    {
      ok := replies.finish;
      calls := calls + [Call.Finish(ok)];
    }

    method Verify(crc: uint32) returns (ok: bool)
      modifies `calls
      ensures ok == replies.verify && calls == old(calls) + [Call.Verify(crc, ok)]
    {
      ok := replies.verify;
      calls := calls + [Call.Verify(crc, ok)];
    }

    method Activate() returns (ok: bool)
      modifies `calls
      ensures ok == replies.activate && calls == old(calls) + [Call.Activate(ok)]
    {
      ok := replies.activate;
      calls := calls + [Call.Activate(ok)];
    }

    method Abort()
      modifies `calls
      ensures calls == old(calls) + [Call.Abort]
    {
      calls := calls + [Call.Abort];
    }
  }

  /** What `handleBegin` does once the size is known to be admissible. */
  function Preparation(size: uint32, crc: uint32, total: uint16, r: Replies): Effect {
    var preparing := State(Preparing, crc, total, 0);
    if !r.begin then Fail(preparing, [Begin(size, false)], [Progress(preparing, None)], EraseFailed)
    else
      var receiving := preparing.(status := Receiving);
      Effect(receiving, [Begin(size, true)], [Progress(preparing, None), Progress(receiving, None)])
  }

  lemma BeginSplits(s: State, size: uint32, crc: uint32, total: uint16, r: Replies)
    requires 0 < size <= r.maxSize
    ensures var e := Preparation(size, crc, total, r);
            Ota.HandleBegin(s, size, crc, total, r)
            == Effect(e.state, (if s.status != Idle then [Abort] else []) + e.calls, e.reports)
  {
  }

  /** What `handleEnd` does once the image has been verified. */
  function Switching(s: State, r: Replies): Effect {
    var rebooting := s.(status := Rebooting);
    var reports := [Progress(s.(status := Applying), None), Progress(rebooting, None)];
    if !r.activate then Fail(rebooting, [Activate(false)], reports, ActivationFailed)
    else Effect(rebooting, [Activate(true)], reports)
  }

  /** What `handleEnd` does once the verification has been announced. */
  function Application(s: State, r: Replies): Effect {
    if !r.verify then Fail(s, [Verify(s.expectedCrc, false)], [], VerificationFailed)
    else
      var e := Switching(s, r);
      Effect(e.state, [Verify(s.expectedCrc, true)] + e.calls, e.reports)
  }

  lemma EndSplits(s: State, r: Replies)
    requires s.status == Receiving && s.received == s.total && r.finish
    ensures var verifying := s.(status := Verifying);
            var e := Application(verifying, r);
            Ota.HandleEnd(s, r) == Effect(e.state, [Finish(true)] + e.calls, [Progress(verifying, None)] + e.reports)
  {
  }

  class OtaManager {
    const writer: FlashWriter
    const hasProgressCallback: bool
    var status: Status
    var expectedCrc: uint32
    var totalChunks: uint16
    var receivedChunks: uint16
    // The messages handled so far, and the calls made to the progress callback.
    ghost var turns: seq<Turn>
    ghost var reports: seq<Report>
    // All calls to writer and callback together, and what the writer had recorded before.
    ghost var trace: Trace
    ghost const earlierCalls: seq<Call>

    ghost function Current(): State
      reads this
    {
      State(status, expectedCrc, totalChunks, receivedChunks)
    }

    /** The trace is made up of the writer's record and the reports. */
    ghost predicate Traced()
      reads this, writer
    {
      writer.calls == CallsAfter(earlierCalls, trace) && reports == ReportsIn(trace)
    }

    /** A host that listens has seen the protocol of OtaOrder followed, up to one of these phases. */
    ghost predicate InPhase(phases: set<Phase>)
      reads this
    {
      hasProgressCallback ==> PhaseAfter(trace) in phases
    }

    /**
     The manager's state, the writer's record and the reports are those of the run of all messages, and the calls
     came in the right order.
     */
    ghost predicate Valid()
      reads this, writer
    {
      && Current() == Run(turns).state
      && writer.calls == earlierCalls + Run(turns).calls
      && reports == (if hasProgressCallback then Run(turns).reports else [])
      && Traced() && InPhase({Ready, Stored})
    }

    constructor (writer: FlashWriter, hasProgressCallback: bool)
      ensures Valid() && turns == [] && this.writer == writer && this.hasProgressCallback == hasProgressCallback
    {
      this.writer := writer;
      this.hasProgressCallback := hasProgressCallback;
      status, expectedCrc, totalChunks, receivedChunks := Idle, 0, 0, 0;
      turns, reports, trace, earlierCalls := [], [], Start, writer.calls;
    }

    /** What a call of the progress callback adds to the record. */
    ghost function Shown(more: seq<Report>): seq<Report> {
      if hasProgressCallback then more else []
    }

    /** The state, the writer's record and the progress record after an effect. */
    twostate predicate Did(e: Effect)
      reads this, writer
    {
      && Current() == e.state
      && writer.calls == old(writer.calls) + e.calls
      && reports == old(reports) + Shown(e.reports)
    }

    /** Enter a call that was just made into the trace. */
    ghost method Note(a: Action)
      requires writer.calls == CallsAfter(earlierCalls, trace) + if a.Asked? then [a.call] else []
      requires reports == ReportsIn(trace) + if a.Told? then [a.report] else []
      modifies `trace
      ensures Traced() && trace == Trace.Then(old(trace), a)
    {
      trace := Trace.Then(trace, a);
    }

    method TransitionTo(newStatus: Status, message: Option<Message>)
      requires Traced()
      modifies `status, `reports, `trace
      ensures Current() == old(Current()).(status := newStatus)
      ensures reports == if hasProgressCallback
                         then old(reports) + [Report(newStatus, receivedChunks, totalChunks, message)] else old(reports)
      ensures Traced()
      ensures hasProgressCallback ==>
                trace == Trace.Then(old(trace), Told(Report(newStatus, receivedChunks, totalChunks, message)))
    {
      status := newStatus;
      if hasProgressCallback {
        reports := reports + [Progress(Current(), message)];
        Note(Told(Progress(Current(), message)));
      }
    }

    /** Abort the writer, report the error, and rest in Idle. */
    method FailWith(message: Message)
      requires Traced() && InPhase({Ready, Stored, Refused}) && message != FirmwareTooLarge
      modifies `status, `reports, `trace, writer`calls
      ensures Did(Fail(old(Current()), [], [], message))
      ensures Current() == old(Current()).(status := Idle)
      ensures writer.calls == old(writer.calls) + [Call.Abort]
      ensures reports == old(reports) + Shown([Report(Status.Error, receivedChunks, totalChunks, Some(message))])
      ensures Traced() && InPhase({Ready})
    {
      writer.Abort();
      Note(Asked(Call.Abort));
      TransitionTo(Status.Error, Some(message));
      status := Idle;
    }

    /** A session that is under way is aborted before a new one begins. */
    method EndPrevious()
      requires Traced() && InPhase({Ready, Stored})
      modifies this`trace, this`status, this`totalChunks, this`receivedChunks, writer`calls
      ensures var s := old(Current());
              Did(if s.status == Idle then Effect(s, [], [])
                  else Effect(s.(status := Idle, received := 0, total := 0), [Call.Abort], []))
      ensures Traced() && InPhase({Ready, Stored, Cleared})
    {
      if status != Idle {
        writer.Abort();
        Note(Asked(Call.Abort));
        status := Idle;
        receivedChunks := 0;
        totalChunks := 0;
      }
    }

    /** The part of `handleBegin` after the size check. */
    method Prepare(firmwareSize: uint32, firmwareCrc: uint32, total: uint16)
      requires Traced() && InPhase({Ready, Stored, Cleared})
      modifies this`trace, this`status, this`expectedCrc, this`totalChunks, this`receivedChunks, this`reports
      modifies writer`calls
      ensures Did(Preparation(firmwareSize, firmwareCrc, total, writer.replies))
      ensures Traced() && InPhase({Ready})
    {
      expectedCrc := firmwareCrc;
      totalChunks := total;
      receivedChunks := 0;
      TransitionTo(Preparing, None);
      assert InPhase({Prepared});
      var begun := writer.Begin(firmwareSize);
      Note(Asked(Call.Begin(firmwareSize, begun)));
      assert InPhase({Begun, Refused});
      ghost var calls, told := [Call.Begin(firmwareSize, begun)], Shown([Report(Preparing, 0, total, None)]);
      assert writer.calls == old(writer.calls) + calls && reports == old(reports) + told;
      if !begun {
        FailWith(EraseFailed);
        Appended(old(writer.calls), calls, [Call.Abort]);
        Appended(old(reports), told, Shown([Report(Status.Error, 0, total, Some(EraseFailed))]));
        return;
      }
      TransitionTo(Receiving, None);
      Appended(old(reports), told, Shown([Report(Receiving, 0, total, None)]));
    }

    /** The body of `handleBegin`. */
    method BeginSession(firmwareSize: uint32, firmwareCrc: uint32, total: uint16)
      requires Traced() && InPhase({Ready, Stored})
      modifies this`trace, this`status, this`expectedCrc, this`totalChunks, this`receivedChunks, this`reports
      modifies writer`calls
      ensures Did(Ota.HandleBegin(old(Current()), firmwareSize, firmwareCrc, total, writer.replies))
      ensures Traced() && InPhase({Ready})
    {
      EndPrevious();
      var maxSize := writer.MaxFirmwareSize();
      if firmwareSize == 0 || firmwareSize > maxSize {
        TransitionTo(Status.Error, Some(FirmwareTooLarge));
        status := Idle;
        return;
      }
      ghost var ending := if old(status) != Idle then [Call.Abort] else [];
      ghost var e := Preparation(firmwareSize, firmwareCrc, total, writer.replies);
      BeginSplits(old(Current()), firmwareSize, firmwareCrc, total, writer.replies);
      Prepare(firmwareSize, firmwareCrc, total);
      Appended(old(writer.calls), ending, e.calls);
    }

    /** The body of the raw `handleData`. */
    method StoreChunk(chunkIndex: uint16, data: array?<byte>, dataSize: nat)
      requires data != null ==> dataSize <= data.Length
      requires Traced() && InPhase({Ready, Stored})
      modifies this`trace, this`status, this`receivedChunks, this`reports, writer`calls
      ensures Did(Ota.HandleRawData(old(Current()), chunkIndex, Chunk(data, dataSize), writer.replies))
      ensures Traced() && InPhase({Ready, Stored})
    {
      if status != Receiving {
        return;
      }
      if chunkIndex != receivedChunks {
        FailWith(UnexpectedChunkIndex);
        return;
      }
      if data == null || dataSize == 0 {
        FailWith(EmptyChunk);
        return;
      }
      var written := writer.WriteChunk(chunkIndex, data, dataSize);
      Note(Asked(Write(chunkIndex, data[..dataSize], written)));
      if !written {
        FailWith(WriteFailed);
        return;
      }
      receivedChunks := Wrap(receivedChunks + 1);
      var isLastChunk := receivedChunks == totalChunks;
      var isReportDue := ReportInterval(receivedChunks);
      if hasProgressCallback && (isLastChunk || isReportDue) {
        reports := reports + [Progress(Current(), None)];
        Note(Told(Progress(Current(), None)));
      }
    }

    /** The body of the typed `handleData`. */
    method StoreTypedChunk(chunkIndex: uint16, data: array?<byte>, dataSize: nat)
      requires data != null ==> dataSize <= data.Length
      requires Traced() && InPhase({Ready, Stored})
      modifies this`trace, this`status, this`receivedChunks, this`reports, writer`calls
      ensures Did(Ota.HandleTypedData(old(Current()), chunkIndex, Chunk(data, dataSize), writer.replies))
      ensures Traced() && InPhase({Ready, Stored})
    {
      if data == null || dataSize == 0 {
        FailWith(EmptyChunk);
        return;
      }
      StoreChunk(chunkIndex, data, dataSize);
    }

    /** The part of `handleEnd` after a successful verification. */
    method SwitchImage()
      requires Traced() && InPhase({Verified})
      modifies this`trace, this`status, this`reports, writer`calls
      ensures Did(Switching(old(Current()), writer.replies))
      ensures Traced() && InPhase({Ready})
    {
      TransitionTo(Applying, None);
      assert InPhase({Applied});
      TransitionTo(Rebooting, None);
      assert InPhase({Activating});
      var activated := writer.Activate();
      Note(Asked(Call.Activate(activated)));
      assert InPhase({Ready, Refused});
      if !activated {
        FailWith(ActivationFailed);
        return;
      }
    }

    /** The part of `handleEnd` after the verification has been announced. */
    method ApplyImage()
      requires Traced() && InPhase({Checking})
      modifies this`trace, this`status, this`reports, writer`calls
      ensures Did(Application(old(Current()), writer.replies))
      ensures Traced() && InPhase({Ready})
    {
      var verified := writer.Verify(expectedCrc);
      Note(Asked(Call.Verify(expectedCrc, verified)));
      if !verified {
        FailWith(VerificationFailed);
        return;
      }
      ghost var e := Switching(Current(), writer.replies);
      SwitchImage();
      Appended(old(writer.calls), [Call.Verify(expectedCrc, true)], e.calls);
    }

    /** The body of `handleEnd`. */
    method EndSession()
      requires Traced() && InPhase({Ready, Stored})
      modifies this`trace, this`status, this`reports, writer`calls
      ensures Did(Ota.HandleEnd(old(Current()), writer.replies))
      ensures Traced() && InPhase({Ready, Stored})
    {
      if status != Receiving {
        return;
      }
      if receivedChunks != totalChunks {
        FailWith(ChunkCountMismatch);
        return;
      }
      var finished := writer.Finish();
      Note(Asked(Call.Finish(finished)));
      if !finished {
        FailWith(FinalizationFailed);
        return;
      }
      TransitionTo(Verifying, None);
      ghost var e := Application(Current(), writer.replies);
      ghost var announced := Shown([Progress(Current(), None)]);
      EndSplits(old(Current()), writer.replies);
      ApplyImage();
      Appended(old(writer.calls), [Call.Finish(true)], e.calls);
      Appended(old(reports), announced, Shown(e.reports));
    }

    /** The body of `handleAbort`. */
    method AbortSession(reason: Option<string>)
      requires Traced() && InPhase({Ready, Stored})
      modifies this`trace, this`status, this`reports, writer`calls
      ensures Did(Ota.HandleAbort(old(Current()), reason))
      ensures Traced() && InPhase({Ready, Stored})
    {
      if status == Idle {
        return;
      }
      FailWith(if reason.Some? then HostReason(reason.value) else AbortedByHost);
    }

    /** Handling one message keeps the manager on the run of all messages. */
    twostate lemma Recorded(turn: Turn)
      requires old(Valid())
      requires Did(Handle(old(Current()), turn.input, turn.replies))
      requires turns == old(turns) + [turn] && Traced() && InPhase({Ready, Stored})
      ensures Valid()
    {
      var e := Handle(old(Current()), turn.input, turn.replies);
      RunNext(old(turns), turn);
      Appended(earlierCalls, Run(old(turns)).calls, e.calls);
    }

    method HandleBegin(firmwareSize: uint32, firmwareCrc: uint32, total: uint16)
      requires Valid()
      modifies this, writer`calls
      ensures Valid()
      ensures turns == old(turns) + [Turn(BeginMessage(firmwareSize, firmwareCrc, total), writer.replies)]
    {
      BeginSession(firmwareSize, firmwareCrc, total);
      turns := turns + [Turn(BeginMessage(firmwareSize, firmwareCrc, total), writer.replies)];
      Recorded(turns[|turns| - 1]);
    }

    method HandleRawData(chunkIndex: uint16, data: array?<byte>, dataSize: nat)
      requires Valid()
      requires data != null ==> dataSize <= data.Length
      modifies this, writer`calls
      ensures Valid()
      ensures turns == old(turns) + [Turn(RawData(chunkIndex, Chunk(data, dataSize)), writer.replies)]
    {
      StoreChunk(chunkIndex, data, dataSize);
      turns := turns + [Turn(RawData(chunkIndex, Chunk(data, dataSize)), writer.replies)];
      Recorded(turns[|turns| - 1]);
    }

    method HandleTypedData(chunkIndex: uint16, data: array?<byte>, dataSize: nat)
      requires Valid()
      requires data != null ==> dataSize <= data.Length
      modifies this, writer`calls
      ensures Valid()
      ensures turns == old(turns) + [Turn(TypedData(chunkIndex, Chunk(data, dataSize)), writer.replies)]
    {
      StoreTypedChunk(chunkIndex, data, dataSize);
      turns := turns + [Turn(TypedData(chunkIndex, Chunk(data, dataSize)), writer.replies)];
      Recorded(turns[|turns| - 1]);
    }

    method HandleEnd()
      requires Valid()
      modifies this, writer`calls
      ensures Valid()
      ensures turns == old(turns) + [Turn(EndMessage, writer.replies)]
    {
      EndSession();
      turns := turns + [Turn(EndMessage, writer.replies)];
      Recorded(turns[|turns| - 1]);
    }

    method HandleAbort(reason: Option<string>)
      requires Valid()
      modifies this, writer`calls
      ensures Valid()
      ensures turns == old(turns) + [Turn(AbortMessage(reason), writer.replies)]
    {
      AbortSession(reason);
      turns := turns + [Turn(AbortMessage(reason), writer.replies)];
      Recorded(turns[|turns| - 1]);
    }

    /** The status between calls, and the announced total as the getter returns it. */
    method GetStatus() returns (s: Status, total: uint16)
      requires Valid()
      ensures s == Run(turns).state.status && Resting(s) && total == Run(turns).state.total
    {
      CallsInPlace(turns);
      s, total := status, totalChunks;
    }
  }

  /** The chunk that a pointer and a size denote; without a pointer there is none. */
  function Chunk(data: array?<byte>, size: nat): seq<byte>
    requires data != null ==> size <= data.Length
    reads data
  {
    if data == null then [] else data[..size]
  }
}
