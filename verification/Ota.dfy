/**
 The firmware-update state machine as a function of its state, the message and the flash writer's replies.
 A handler asks each writer operation at most once, so one record of replies per message covers every
 possible behaviour of the writer.
 */
module Ota {
  import opened Bytes

  /** What a 16-bit counter shows after `n` increments. */
  function Wrap(n: nat): uint16 {
    n % 0x1_0000
  }

  /** Every fiftieth count is reported. */
  predicate ReportInterval(count: uint16) {
    count % 50 == 0
  }

  datatype Option<T> = None | Some(value: T)

  datatype Status = Idle | Preparing | Receiving | Verifying | Applying | Rebooting | Error

  /** The calls made to the flash writer, with its replies. */
  datatype Call =
    | Begin(size: uint32, ok: bool)
    | Write(index: uint16, data: seq<byte>, ok: bool)
    | Finish(ok: bool)
    | Verify(crc: uint32, ok: bool)
    | Activate(ok: bool)
    | Abort

  /** The error texts, one constructor each; only a host's own reason is free text. */
  datatype Message =
    | FirmwareTooLarge | EraseFailed | UnexpectedChunkIndex | EmptyChunk | WriteFailed | ChunkCountMismatch
    | FinalizationFailed | VerificationFailed | ActivationFailed | AbortedByHost | HostReason(text: string)

  /** The calls made to the progress callback. */
  datatype Report = Report(status: Status, received: uint16, total: uint16, message: Option<Message>)

  /** The messages; the raw and the typed form of data differ on empty chunks. */
  datatype Input =
    | BeginMessage(size: uint32, crc: uint32, total: uint16)
    | RawData(index: uint16, data: seq<byte>)
    | TypedData(index: uint16, data: seq<byte>)
    | EndMessage
    | AbortMessage(reason: Option<string>)

  /** What the flash writer answers while one message is handled. */
  datatype Replies = Replies(maxSize: uint32, begin: bool, write: bool, finish: bool, verify: bool, activate: bool)

  datatype State = State(status: Status, expectedCrc: uint32, total: uint16, received: uint16)

  const INITIAL: State := State(Idle, 0, 0, 0)

  /** The state after a message, and the calls it caused. */
  datatype Effect = Effect(state: State, calls: seq<Call>, reports: seq<Report>)

  function Progress(s: State, message: Option<Message>): Report {
    Report(s.status, s.received, s.total, message)
  }

  /** Abort the writer, report an error, and rest in Idle; `calls` and `reports` came first. */
  function Fail(s: State, calls: seq<Call>, reports: seq<Report>, message: Message): Effect {
    Effect(s.(status := Idle), calls + [Abort], reports + [Progress(s.(status := Error), Some(message))])
  }

  function HandleBegin(s: State, size: uint32, crc: uint32, total: uint16, r: Replies): Effect {
    var ended := if s.status != Idle then s.(status := Idle, received := 0, total := 0) else s;
    var aborts := if s.status != Idle then [Abort] else [];
    if size == 0 || size > r.maxSize then
      Effect(ended, aborts, [Progress(ended.(status := Error), Some(FirmwareTooLarge))])
    else
      var preparing := State(Preparing, crc, total, 0);
      var calls := aborts + [Begin(size, r.begin)];
      if !r.begin then Fail(preparing, calls, [Progress(preparing, None)], EraseFailed)
      else
        var receiving := preparing.(status := Receiving);
        Effect(receiving, calls, [Progress(preparing, None), Progress(receiving, None)])
  }

  function HandleRawData(s: State, index: uint16, data: seq<byte>, r: Replies): Effect {
    if s.status != Receiving then Effect(s, [], [])
    else if index != s.received then Fail(s, [], [], UnexpectedChunkIndex)
    else if data == [] then Fail(s, [], [], EmptyChunk)
    else if !r.write then Fail(s, [Write(index, data, false)], [], WriteFailed)
    else
      var next := s.(received := Wrap(s.received + 1));
      var due := next.received == next.total || ReportInterval(next.received);
      Effect(next, [Write(index, data, true)], if due then [Progress(next, None)] else [])
  }

  function HandleTypedData(s: State, index: uint16, data: seq<byte>, r: Replies): Effect {
    if data == [] then Fail(s, [], [], EmptyChunk) else HandleRawData(s, index, data, r)
  }

  function HandleEnd(s: State, r: Replies): Effect {
    if s.status != Receiving then Effect(s, [], [])
    else if s.received != s.total then Fail(s, [], [], ChunkCountMismatch)
    else if !r.finish then Fail(s, [Finish(false)], [], FinalizationFailed)
    else
      var verifying := s.(status := Verifying);
      var calls := [Finish(true), Verify(s.expectedCrc, r.verify)];
      if !r.verify then Fail(verifying, calls, [Progress(verifying, None)], VerificationFailed)
      else
        var rebooting := s.(status := Rebooting);
        var reports := [Progress(verifying, None), Progress(s.(status := Applying), None), Progress(rebooting, None)];
        if !r.activate then Fail(rebooting, calls + [Activate(false)], reports, ActivationFailed)
        else Effect(rebooting, calls + [Activate(true)], reports)
  }

  function HandleAbort(s: State, reason: Option<string>): Effect {
    if s.status == Idle then Effect(s, [], [])
    else Fail(s, [], [], if reason.Some? then HostReason(reason.value) else AbortedByHost)
  }

  function Handle(s: State, input: Input, r: Replies): Effect {
    match input
    case BeginMessage(size, crc, total) => HandleBegin(s, size, crc, total, r)
    case RawData(index, data) => HandleRawData(s, index, data, r)
    case TypedData(index, data) => HandleTypedData(s, index, data, r)
    case EndMessage => HandleEnd(s, r)
    case AbortMessage(reason) => HandleAbort(s, reason)
  }
}
