/**
 The stream processor over its fixed buffer: appending, the extraction loop, the search for the version byte
 and the in-place shifting.  Every method is proved to compute the functions of Parser.dfy and Feeding.dfy.
 */
module StreamProcessor {
  import opened Bytes
  import opened Frame
  import opened Parser
  import opened Chunking
  import opened Feeding
  import FrameTransport

  /** What one event shows: without an error callback, only frames. */
  function Shown(event: Event, errors: bool): seq<Event> {
    if event.FrameDelivered? || errors then [event] else []
  }

  /** What reaches the callbacks. */
  function Visible(events: seq<Event>, errors: bool): seq<Event> {
    if events == [] then [] else Shown(events[0], errors) + Visible(events[1..], errors)
  }

  lemma {:induction false} VisibleConcat(a: seq<Event>, b: seq<Event>, errors: bool)
    ensures Visible(a + b, errors) == Visible(a, errors) + Visible(b, errors)
    decreases |a|
  {
    if a == [] {
      assert a + b == b;
    } else {
      assert (a + b)[1..] == a[1..] + b;
      VisibleConcat(a[1..], b, errors);
      Regroup(Shown(a[0], errors), Visible(a[1..], errors), Visible(b, errors));
    }
  }

  /** The frames are visible whether errors are or not. */
  lemma {:induction false} FramesStayVisible(events: seq<Event>, errors: bool)
    ensures Visible(Visible(events, errors), false) == Visible(events, false)
    decreases |events|
  {
    if events != [] {
      FramesStayVisible(events[1..], errors);
      VisibleConcat(Shown(events[0], errors), Visible(events[1..], errors), false);
      VisibleOne(events[0], errors);
    }
  }

  /** With an error callback everything is visible. */
  lemma {:induction false} EverythingVisible(events: seq<Event>)
    ensures Visible(events, true) == events
    decreases |events|
  {
    if events != [] {
      EverythingVisible(events[1..]);
      assert events == [events[0]] + events[1..];
    }
  }

  /** Without one, an event is visible exactly if it delivers a frame, in its place among the others. */
  lemma FramesVisibleInPlace(before: seq<Event>, event: Event, after: seq<Event>)
    ensures Visible((before + [event]) + after, false)
         == (Visible(before, false) + if event.FrameDelivered? then [event] else []) + Visible(after, false)
  {
    VisibleConcat(before + [event], after, false);
    VisibleConcat(before, [event], false);
    VisibleOne(event, false);
  }

  /** The events that deliver the given frames. */
  predicate Delivering(shown: seq<Event>, frames: seq<seq<byte>>) {
    && |shown| == |frames|
    && forall i | 0 <= i < |frames| :: |frames[i]| >= 12 && shown[i] == FrameDelivered(frames[i][8..|frames[i]| - 4])
  }

  lemma DeliverConcat(a: seq<Event>, b: seq<Event>, x: seq<seq<byte>>, y: seq<seq<byte>>)
    requires Delivering(a, x) && Delivering(b, y)
    ensures Delivering(a + b, x + y)
  {
  }

  /** The visible events of a run are, without an error callback, the payloads of the frames delivered in it. */
  lemma {:induction false} FramesVisible(steps: seq<Step>)
    requires SoundFrames(steps)
    ensures Delivering(Visible(Events(steps), false), Frames(steps))
    decreases |steps|
  {
    if steps != [] {
      var step := steps[0];
      var frames := if step.Deliver? then [step.frame] else [];
      FramesVisible(steps[1..]);
      VisibleConcat(step.Events(), Events(steps[1..]), false);
      FramesOfStep(step);
      DeliverConcat(Visible(step.Events(), false), Visible(Events(steps[1..]), false), frames, Frames(steps[1..]));
    }
  }

  lemma FramesOfStep(step: Step)
    requires step.Deliver? ==> Accepts(step.frame)
    ensures Delivering(Visible(step.Events(), false), if step.Deliver? then [step.frame] else [])
  {
    match step
    case Deliver(frame) => VisibleOne(FrameDelivered(PayloadOf(frame)), false);
    case Discard(error, _, _) =>
      VisibleConcat([ErrorReported(error)], [ErrorReported(SyncRecoveryAttempt)], false);
      VisibleOne(ErrorReported(error), false);
      VisibleOne(ErrorReported(SyncRecoveryAttempt), false);
      assert step.Events() == [ErrorReported(error)] + [ErrorReported(SyncRecoveryAttempt)];
    case Clear(_) =>
    case Refuse => VisibleOne(ErrorReported(InvalidHeader), false);
  }

  /** So the frames in the log are those delivered in the run of all operations, in order. */
  lemma LogHoldsFrames(ops: seq<Operation>)
    ensures Delivering(FrameLog(ops), Frames(Run([], ops).steps))
  {
    RunSound([], ops);
    FramesVisible(Run([], ops).steps);
  }

  lemma VisibleOne(event: Event, errors: bool)
    ensures Visible(Shown(event, errors), false) == Shown(event, false)
    ensures Visible([event], errors) == Shown(event, errors)
  {
  }

  lemma {:induction false} RunAppend(buf: seq<byte>, ops: seq<Operation>, op: Operation)
    requires |buf| < CAPACITY
    ensures var r := Run(buf, ops);
            var last := Perform(r.rest, op);
            Run(buf, ops + [op]) == Result(r.steps + last.steps, last.rest, r.accepted + last.accepted)
    decreases |ops|
  {
    if ops == [] {
      var r := Perform(buf, op);
      PerformBound(buf, op);
      assert ops + [op] == [op] && [op][1..] == [];
      assert r.steps + [] == r.steps == [] + r.steps && r.accepted + [] == r.accepted == [] + r.accepted;
    } else {
      var first := Perform(buf, ops[0]);
      PerformBound(buf, ops[0]);
      assert (ops + [op])[1..] == ops[1..] + [op];
      RunAppend(first.rest, ops[1..], op);
      var r := Run(first.rest, ops[1..]);
      var last := Perform(r.rest, op);
      Regroup(first.steps, r.steps, last.steps);
      Regroup(first.accepted, r.accepted, last.accepted);
    }
  }

  /** The buffer after a run from the start, and the frames delivered in it. */
  function BufferAfter(ops: seq<Operation>): (buf: seq<byte>)
    ensures |buf| < CAPACITY
  {
    Run([], ops).rest
  }

  function FrameLog(ops: seq<Operation>): seq<Event> {
    Visible(Events(Run([], ops).steps), false)
  }

  lemma OneMoreOperation(ops: seq<Operation>, op: Operation)
    ensures var last := Perform(BufferAfter(ops), op);
            && BufferAfter(ops + [op]) == last.rest
            && FrameLog(ops + [op]) == FrameLog(ops) + Visible(Events(last.steps), false)
  {
    RunAppend([], ops, op);
    var steps, last := Run([], ops).steps, Perform(BufferAfter(ops), op);
    EventsConcat(steps, last.steps);
    VisibleConcat(Events(steps), Events(last.steps), false);
  }

  /** The extraction of `start` after `done` steps, with `now` left in the buffer. */
  predicate Underway(start: seq<byte>, done: seq<Step>, now: seq<byte>) {
    Extract(start) == Then(Outcome(done, []), Extract(now))
  }

  lemma UnderwayContinues(start: seq<byte>, done: seq<Step>, now: seq<byte>, step: Step)
    requires Underway(start, done, now) && NextStep(now) == Take(step)
    ensures Underway(start, done + [step], now[|step.Octets()|..])
  {
    ExtractTake(now);
    var later := Extract(now[|step.Octets()|..]);
    Regroup(done, [step], later.steps);
  }

  lemma UnderwayEnds(start: seq<byte>, done: seq<Step>, now: seq<byte>)
    requires Underway(start, done, now) && Settled(now)
    ensures Extract(start) == Outcome(done, now)
  {
  }

  lemma VisibleStep(done: seq<Step>, step: Step, errors: bool)
    ensures Visible(Events(done + [step]), errors) == Visible(Events(done), errors) + Visible(step.Events(), errors)
  {
    EventsConcat(done, [step]);
    assert [step][1..] == [] && Events([step]) == step.Events() + [] == step.Events();
    VisibleConcat(Events(done), step.Events(), errors);
  }

  lemma EventsOfOne(step: Step)
    ensures Events([step]) == step.Events()
  {
  }

  /** What one more operation does to the buffer and to the frames in the log. */
  lemma OperationLogged(ops: seq<Operation>, op: Operation, log: seq<Event>, errors: bool)
    requires Visible(log, false) == FrameLog(ops)
    ensures var r := Perform(BufferAfter(ops), op);
            && BufferAfter(ops + [op]) == r.rest
            && Visible(log + Visible(Events(r.steps), errors), false) == FrameLog(ops + [op])
  {
    var events := Events(Perform(BufferAfter(ops), op).steps);
    OneMoreOperation(ops, op);
    VisibleConcat(log, Visible(events, errors), false);
    FramesStayVisible(events, errors);
  }

  lemma ResyncShown(error: ErrorType, buf: seq<byte>, otherwise: nat, errors: bool)
    requires otherwise <= |buf|
    ensures Visible(Resync(error, buf, otherwise).Events(), errors)
         == Visible([ErrorReported(error)], errors) + Visible([ErrorReported(SyncRecoveryAttempt)], errors)
  {
  }

  /** What becomes of a head whose claimed length is available. */
  lemma HeadVerdict(now: seq<byte>, total: nat, errors: bool)
    requires |now| >= HEADER_SIZE && total == ClaimedSize(now) && total <= CAPACITY && total <= |now|
    ensures if Accepts(now[..total])
            then NextStep(now) == Take(Deliver(now[..total]))
                 && Visible(Deliver(now[..total]).Events(), errors) == [FrameDelivered(PayloadOf(now[..total]))]
            else NextStep(now) == Take(Resync(CrcFailure, now, total))
  {
  }

  /** The two ways on after the buffer overflowed. */
  lemma OverflowFeed(buf: seq<byte>, chunk: seq<byte>, errors: bool)
    requires |buf| <= CAPACITY && |chunk| > CAPACITY - |buf|
    ensures var step := Resync(BufferOverflow, buf, |buf|);
            var kept := buf[|step.Octets()|..];
            var r := FeedChunk(buf, chunk);
            var shown := Visible(step.Events(), errors);
            if |chunk| > CAPACITY - |kept| then r.rest == kept && Visible(Events(r.steps), errors) == shown
            else r.rest == Extract(kept + chunk).rest
                 && Visible(Events(r.steps), errors) == shown + Visible(Events(Extract(kept + chunk).steps), errors)
  {
    var step := Resync(BufferOverflow, buf, |buf|);
    var steps := Extract(buf[|step.Octets()|..] + chunk).steps;
    EventsOfOne(step);
    EventsConcat([step], steps);
    VisibleConcat(step.Events(), Events(steps), errors);
  }

  /** Chunks that are not noticed, and those that nobody listens for. */
  lemma UnheardShown(buf: seq<byte>, chunk: seq<byte>, listening: bool, errors: bool)
    requires |buf| <= CAPACITY && (chunk == [] || !listening)
    ensures var r := Perform(buf, Operation.Feed(chunk, listening));
            r.rest == buf
            && Visible(Events(r.steps), errors)
               == if chunk != [] && errors then [ErrorReported(InvalidHeader)] else []
  {
    EventsOfOne(Refuse);
    VisibleOne(ErrorReported(InvalidHeader), errors);
  }

  /** The operation that a call of `feed` amounts to. */
  function ChunkOperation(data: array?<byte>, count: nat, listening: bool): Operation
    requires data != null ==> count <= data.Length
    reads data
  {
    Operation.Feed(if data == null then [] else data[..count], listening)
  }

  /** Some frame was delivered. */
  predicate AnyDelivered(steps: seq<Step>) {
    exists step | step in steps :: step.Deliver?
  }

  lemma AnyDeliveredStep(done: seq<Step>, step: Step)
    ensures AnyDelivered(done + [step]) <==> AnyDelivered(done) || step.Deliver?
  {
  }

  /** The state of the extraction loop: what is in the buffer, what was called, whether a frame was delivered. */
  datatype LoopState = LoopState(now: seq<byte>, log: seq<Event>, any: bool)

  /** The loop has taken the steps `done` since it started in `from`. */
  predicate Looping(from: LoopState, errors: bool, done: seq<Step>, at: LoopState) {
    && Underway(from.now, done, at.now)
    && at.log == from.log + Visible(Events(done), errors)
    && (at.any <==> AnyDelivered(done))
  }

  lemma LoopingStarts(from: LoopState, errors: bool)
    requires !from.any
    ensures Looping(from, errors, [], from)
  {
  }

  lemma LoopingContinues(from: LoopState, errors: bool, done: seq<Step>, at: LoopState, step: Step)
    requires Looping(from, errors, done, at) && NextStep(at.now) == Take(step)
    ensures Looping(from, errors, done + [step],
                    LoopState(at.now[|step.Octets()|..], at.log + Visible(step.Events(), errors), at.any || step.Deliver?))
  {
    UnderwayContinues(from.now, done, at.now, step);
    VisibleStep(done, step, errors);
    Regroup(from.log, Visible(Events(done), errors), Visible(step.Events(), errors));
    AnyDeliveredStep(done, step);
  }

  lemma LoopingEnds(from: LoopState, errors: bool, done: seq<Step>, at: LoopState)
    requires Looping(from, errors, done, at) && Settled(at.now)
    ensures var o := Extract(from.now);
            && at == LoopState(o.rest, from.log + Visible(Events(o.steps), errors), AnyDelivered(o.steps))
            && |at.now| < CAPACITY
  {
    UnderwayEnds(from.now, done, at.now);
    ExtractSettles(from.now);
  }

  class StreamProcessor {
    const buffer: array<byte>
    var size: nat
    var hasFrameCallback: bool
    var hasErrorCallback: bool
    // The operations so far, and the calls made to the callbacks.
    ghost var operations: seq<Operation>
    ghost var log: seq<Event>

    ghost function Contents(): (s: seq<byte>)
      requires size <= buffer.Length
      reads this, buffer
    {
      buffer[..size]
    }

    /**
     The buffer is what the run of all operations leaves, and the frames delivered to the callback are those of
     the run.
     */
    ghost predicate Valid()
      reads this, buffer
    {
      && buffer.Length == CAPACITY
      && size < CAPACITY
      && Contents() == BufferAfter(operations)
      && Visible(log, false) == FrameLog(operations)
    }

    constructor ()
      ensures Valid() && fresh(buffer)
      ensures operations == [] && log == [] && size == 0 && !hasFrameCallback && !hasErrorCallback
    {
      buffer := new byte[CAPACITY](_ => 0);
      size := 0;
      hasFrameCallback, hasErrorCallback := false, false;
      operations, log := [], [];
    }

    method SetFrameCallback(valid: bool)
      modifies `hasFrameCallback
      ensures hasFrameCallback == valid
    {
      hasFrameCallback := valid;
    }

    method SetErrorCallback(valid: bool)
      modifies `hasErrorCallback
      ensures hasErrorCallback == valid
    {
      hasErrorCallback := valid;
    }

    method GetBufferUsage() returns (n: nat)
      requires Valid()
      ensures n == |Contents()| < CAPACITY
    {
      n := size;
    }

    method ReportError(error: ErrorType)
      modifies `log
      ensures log == if hasErrorCallback then old(log) + [ErrorReported(error)] else old(log)
      ensures log == old(log) + Visible([ErrorReported(error)], hasErrorCallback)
    {
      VisibleOne(ErrorReported(error), hasErrorCallback);
      if hasErrorCallback {
        log := log + [ErrorReported(error)];
      }
    }

    /** The forward, overlapping copy of the live octets from `from` to the front. */
    method ShiftLeft(from: nat)
      requires from <= size <= buffer.Length
      modifies `size, buffer
      ensures size <= buffer.Length && Contents() == old(Contents())[from..]
    {
      ghost var before := buffer[..];
      var remaining := size - from;
      var i := 0;
      while i < remaining
        invariant 0 <= i <= remaining
        invariant forall k | 0 <= k < i :: buffer[k] == before[from + k]
        invariant forall k | i <= k < buffer.Length :: buffer[k] == before[k]
      {
        buffer[i] := buffer[from + i];
        i := i + 1;
      }
      size := remaining;
    }

    method TrySync() returns (found: bool)
      requires size <= buffer.Length
      modifies `size, `log, buffer
      ensures size <= buffer.Length
      ensures found == (SearchVersion(old(Contents()), 1) < |old(Contents())|)
      ensures Contents() == if found then old(Contents())[SearchVersion(old(Contents()), 1)..] else old(Contents())
      ensures log == if hasErrorCallback then old(log) + [ErrorReported(SyncRecoveryAttempt)] else old(log)
    {
      ReportError(SyncRecoveryAttempt);
      var searchPos := 1;
      while searchPos < size
        invariant searchPos >= 1
        invariant SearchVersion(Contents(), 1) == SearchVersion(Contents(), searchPos)
        invariant unchanged(buffer) && size == old(size)
      {
        if buffer[searchPos] == PROTOCOL_VERSION {
          ShiftLeft(searchPos);
          return true;
        }
        searchPos := searchPos + 1;
      }
      found := false;
    }

    /** Report an error and search for the version byte; if there is none, drop `otherwise` octets. */
    method Resynchronise(error: ErrorType, otherwise: nat)
      requires otherwise <= size <= buffer.Length
      modifies `size, `log, buffer
      ensures size <= buffer.Length
      ensures var step := Resync(error, old(Contents()), otherwise);
              && Contents() == old(Contents())[|step.Octets()|..]
              && log == old(log) + Visible(step.Events(), hasErrorCallback)
    {
      ghost var before, log0 := Contents(), log;
      ResyncShown(error, before, otherwise, hasErrorCallback);
      VisibleOne(ErrorReported(SyncRecoveryAttempt), hasErrorCallback);
      ReportError(error);
      var found := TrySync();
      Regroup(log0, Visible([ErrorReported(error)], hasErrorCallback),
              Visible([ErrorReported(SyncRecoveryAttempt)], hasErrorCallback));
      if !found {
        ShiftLeft(otherwise);
      }
    }

    /** Hand the first `total` octets to the transport, whose handler passes an accepted payload to the callback. */
    method Dispatch(total: nat, handler: FrameTransport.DataHandler) returns (processed: bool)
      requires total <= size <= buffer.Length && handler.alwaysSucceeds
      modifies `log, handler
      ensures processed == Accepts(Contents()[..total])
      ensures log == if processed then old(log) + [FrameDelivered(PayloadOf(Contents()[..total]))] else old(log)
    {
      assert buffer[..total] == Contents()[..total];
      processed := FrameTransport.HandleIncoming(buffer, total, handler);
      if processed {
        log := log + [FrameDelivered(handler.delivered[|handler.delivered| - 1])];
      }
    }

    /** The frame at the head of the buffer goes to the callback, or is rejected. */
    method ProcessHead(total: nat, handler: FrameTransport.DataHandler) returns (processed: bool)
      requires HEADER_SIZE <= size <= buffer.Length && total <= size && handler.alwaysSucceeds
      requires total == ClaimedSize(Contents()) <= CAPACITY
      modifies `size, `log, buffer, handler
      ensures size <= buffer.Length
      ensures var step := NextStep(old(Contents())).step;
              && NextStep(old(Contents())).Take?
              && processed == step.Deliver?
              && Contents() == old(Contents())[|step.Octets()|..]
              && log == old(log) + Visible(step.Events(), hasErrorCallback)
    {
      HeadVerdict(Contents(), total, hasErrorCallback);
      processed := Dispatch(total, handler);
      if processed {
        ShiftLeft(total);
      } else {
        Resynchronise(CrcFailure, total);
      }
    }

    /** One iteration of the extraction loop; false if it leaves the loop. */
    method ExtractStep(handler: FrameTransport.DataHandler) returns (taken: bool, processed: bool)
      requires HEADER_SIZE <= size <= buffer.Length == CAPACITY && handler.alwaysSucceeds
      modifies `size, `log, buffer, handler
      ensures size <= buffer.Length
      ensures taken == NextStep(old(Contents())).Take?
      ensures !taken ==> Contents() == old(Contents()) && log == old(log) && !processed
      ensures taken ==>
                var step := NextStep(old(Contents())).step;
                && processed == step.Deliver?
                && Contents() == old(Contents())[|step.Octets()|..]
                && log == old(log) + Visible(step.Events(), hasErrorCallback)
    {
      ghost var now := Contents();
      var payloadSize := Num32(buffer[4..8]);
      assert buffer[4..8] == now[4..8];
      var expectedTotalSize := HEADER_SIZE + payloadSize + CRC_SIZE;
      taken, processed := true, false;
      if expectedTotalSize > CAPACITY {
        Resynchronise(InvalidFrameSize, size);
      } else if size < HEADER_SIZE + CRC_SIZE || size < expectedTotalSize {
        taken := false;
      } else {
        processed := ProcessHead(expectedTotalSize, handler);
      }
    }

    method ExtractFrames() returns (extractedAny: bool)
      requires size <= buffer.Length == CAPACITY && hasFrameCallback
      modifies `size, `log, buffer
      ensures size < CAPACITY
      ensures Contents() == Extract(old(Contents())).rest
      ensures log == old(log) + Visible(Events(Extract(old(Contents())).steps), hasErrorCallback)
      ensures extractedAny <==> AnyDelivered(Extract(old(Contents())).steps)
    {
      extractedAny := false;
      var handler := new FrameTransport.DataHandler(true);
      ghost var from, done := LoopState(Contents(), log, false), [];
      LoopingStarts(from, hasErrorCallback);
      while size >= HEADER_SIZE
        invariant size <= CAPACITY
        invariant Looping(from, hasErrorCallback, done, LoopState(Contents(), log, extractedAny))
        decreases size
      {
        ghost var at := LoopState(Contents(), log, extractedAny);
        var taken, processed := ExtractStep(handler);
        if !taken {
          break;
        }
        ghost var step := NextStep(at.now).step;
        LoopingContinues(from, hasErrorCallback, done, at, step);
        done := done + [step];
        extractedAny := extractedAny || processed;
      }
      LoopingEnds(from, hasErrorCallback, done, LoopState(Contents(), log, extractedAny));
    }

    method Append(data: array<byte>, count: nat)
      requires count <= data.Length && data != buffer && size + count <= buffer.Length
      modifies `size, buffer
      ensures size <= buffer.Length && Contents() == old(Contents()) + data[..count]
    {
      ghost var before := buffer[..size];
      forall i | 0 <= i < count {
        buffer[size + i] := data[i];
      }
      size := size + count;
      assert buffer[..size] == before + data[..count];
    }

    method AppendAndExtract(data: array<byte>, count: nat)
      requires count <= data.Length && data != buffer
      requires size + count <= buffer.Length == CAPACITY && hasFrameCallback
      modifies `size, `log, buffer
      ensures size < CAPACITY
      ensures var o := Extract(old(Contents()) + data[..count]);
              && Contents() == o.rest
              && log == old(log) + Visible(Events(o.steps), hasErrorCallback)
    {
      Append(data, count);
      var _ := ExtractFrames();
    }

    /** The chunk is not empty and a frame callback is registered. */
    method FeedListening(data: array<byte>, count: nat)
      requires 0 < count <= data.Length && data != buffer
      requires size < buffer.Length == CAPACITY && hasFrameCallback
      modifies `size, `log, buffer
      ensures size < CAPACITY
      ensures var r := FeedChunk(old(Contents()), data[..count]);
              && Contents() == r.rest
              && log == old(log) + Visible(Events(r.steps), hasErrorCallback)
    {
      ghost var before, chunk, log0 := Contents(), data[..count], log;
      if count > CAPACITY - size {
        Resynchronise(BufferOverflow, size);
        OverflowFeed(before, chunk, hasErrorCallback);
        if count > CAPACITY - size {
          return;
        }
        ghost var kept, shown := Contents(), Resync(BufferOverflow, before, |before|).Events();
        AppendAndExtract(data, count);
        Regroup(log0, Visible(shown, hasErrorCallback), Visible(Events(Extract(kept + chunk).steps), hasErrorCallback));
      } else {
        AppendAndExtract(data, count);
      }
    }

    /** The source's `feed`, without the bookkeeping of `Feed`. */
    method FeedBytes(data: array?<byte>, count: nat)
      requires data != null ==> data != buffer && count <= data.Length
      requires size < buffer.Length == CAPACITY
      modifies `size, `log, buffer
      ensures size < CAPACITY
      ensures var r := Perform(old(Contents()), ChunkOperation(data, count, hasFrameCallback));
              && Contents() == r.rest
              && log == old(log) + Visible(Events(r.steps), hasErrorCallback)
      ensures data == null || count == 0 ==> Contents() == old(Contents()) && log == old(log)
      ensures data != null && count > 0 && !hasFrameCallback ==>
                && Contents() == old(Contents())
                && log == if hasErrorCallback then old(log) + [ErrorReported(InvalidHeader)] else old(log)
    {
      if data == null || count == 0 {
        UnheardShown(Contents(), [], hasFrameCallback, hasErrorCallback);
        return;
      }
      if !hasFrameCallback {
        UnheardShown(Contents(), data[..count], hasFrameCallback, hasErrorCallback);
        ReportError(InvalidHeader);
        return;
      }
      FeedListening(data, count);
    }

    /** Performing one operation keeps the processor on the run of all operations. */
    twostate lemma Recorded(op: Operation)
      requires old(Valid()) && size < buffer.Length
      requires var r := Perform(old(Contents()), op);
               Contents() == r.rest && log == old(log) + Visible(Events(r.steps), hasErrorCallback)
      requires operations == old(operations) + [op]
      ensures Valid()
    {
      OperationLogged(old(operations), op, old(log), hasErrorCallback);
    }

    method Feed(data: array?<byte>, count: nat)
      requires Valid()
      requires data != null ==> data != buffer && count <= data.Length
      modifies `size, `log, `operations, buffer
      ensures Valid()
      ensures operations
           == old(operations) + [Operation.Feed(if data == null then [] else data[..count], hasFrameCallback)]
      ensures data == null || count == 0 ==> Contents() == old(Contents()) && log == old(log)
      ensures data != null && count > 0 && !hasFrameCallback ==>
                && Contents() == old(Contents())
                && log == if hasErrorCallback then old(log) + [ErrorReported(InvalidHeader)] else old(log)
      ensures var op := Operation.Feed(if data == null then [] else data[..count], hasFrameCallback);
              var events := Events(Perform(old(Contents()), op).steps);
              log == old(log) + if hasErrorCallback then events else Visible(events, false)
    {
      FeedBytes(data, count);
      ghost var op := ChunkOperation(data, count, hasFrameCallback);
      EverythingVisible(Events(Perform(old(Contents()), op).steps));
      operations := operations + [op];
      Recorded(op);
    }

    method Reset()
      requires Valid()
      modifies `size, `operations
      ensures Valid() && size == 0
      ensures operations == old(operations) + [Operation.Reset]
    {
      EventsOfOne(Clear(Contents()));
      size := 0;
      operations := operations + [Operation.Reset];
      assert log + [] == log;
      Recorded(Operation.Reset);
    }
  }
}
