/**
 What the stream processor does to its buffer, as functions on octet strings.  Each function follows the
 branches of one method; the class in StreamProcessor.dfy is proved to compute them in place.
 */
module Parser {
  import opened Bytes
  import opened Frame

  const CAPACITY: nat := HEADER_SIZE + MAX_FRAME_SIZE + CRC_SIZE

  datatype ErrorType = BufferOverflow | InvalidFrameSize | CrcFailure | InvalidHeader | SyncRecoveryAttempt

  /** What the registered callbacks see. */
  datatype Event = FrameDelivered(payload: seq<byte>) | ErrorReported(error: ErrorType)

  /**
   What can happen to the front of the buffer: a frame is delivered, or an error is reported and a
   resynchronisation is attempted, or the buffer is cleared.  `Refuse` is a chunk turned away because nobody
   listens.  All but the last make octets leave the buffer.
   */
  datatype Step =
    | Deliver(frame: seq<byte>)
    | Discard(error: ErrorType, dropped: seq<byte>, resynced: bool)
    | Clear(dropped: seq<byte>)
    | Refuse
  {
    function Octets(): seq<byte> {
      match this
      case Deliver(frame) => frame
      case Discard(_, dropped, _) => dropped
      case Clear(dropped) => dropped
      case Refuse => []
    }

    function Events(): seq<Event> {
      match this
      case Deliver(frame) => if |frame| >= HEADER_SIZE + CRC_SIZE then [FrameDelivered(PayloadOf(frame))] else []
      case Discard(error, _, _) => [ErrorReported(error), ErrorReported(SyncRecoveryAttempt)]
      case Clear(_) => []
      case Refuse => [ErrorReported(InvalidHeader)]
    }

    /** The search for the version byte found nothing. */
    predicate FailedSync() {
      Discard? && !resynced
    }
  }

  /** The steps of an extraction and the buffer it leaves. */
  datatype Outcome = Outcome(steps: seq<Step>, rest: seq<byte>)
  {
    function After(step: Step): Outcome {
      Outcome([step] + steps, rest)
    }
  }

  /** The first position at or after `from` that holds the version byte, or the end of the buffer. */
  function SearchVersion(buf: seq<byte>, from: nat): (p: nat)
    ensures p <= |buf|
    ensures p < |buf| ==> from <= p && buf[p] == PROTOCOL_VERSION
    ensures forall i | from <= i < p :: buf[i] != PROTOCOL_VERSION
    decreases |buf| - from
  {
    if from >= |buf| then |buf|
    else if buf[from] == PROTOCOL_VERSION then from
    else SearchVersion(buf, from + 1)
  }

  /** A discarding step: up to the next version byte, or, if there is none, `otherwise` octets. */
  function Resync(error: ErrorType, buf: seq<byte>, otherwise: nat): Step
    requires otherwise <= |buf|
  {
    var p := SearchVersion(buf, 1);
    if p < |buf| then Discard(error, buf[..p], true) else Discard(error, buf[..otherwise], false)
  }

  datatype Next = Wait | Take(step: Step)

  /** One iteration of the extraction loop. */
  function NextStep(buf: seq<byte>): (n: Next)
    ensures n.Take? ==> 0 < |n.step.Octets()| && n.step.Octets() <= buf
  {
    if |buf| < HEADER_SIZE then Wait
    else
      var total := ClaimedSize(buf);
      if total > CAPACITY then Take(Resync(InvalidFrameSize, buf, |buf|))
      else if |buf| < HEADER_SIZE + CRC_SIZE || |buf| < total then Wait
      else if Accepts(buf[..total]) then Take(Deliver(buf[..total]))
      else Take(Resync(CrcFailure, buf, total))
  }

  /** The extraction loop. */
  function Extract(buf: seq<byte>): (o: Outcome)
    decreases |buf|
  {
    match NextStep(buf)
    case Wait => Outcome([], buf)
    case Take(step) => Extract(buf[|step.Octets()|..]).After(step)
  }

  lemma ExtractTake(buf: seq<byte>)
    requires NextStep(buf).Take?
    ensures var step := NextStep(buf).step;
            Extract(buf) == Extract(buf[|step.Octets()|..]).After(step)
  {
  }

  /** All octets that left the buffer, in order. */
  function Octets(steps: seq<Step>): seq<byte> {
    if steps == [] then [] else steps[0].Octets() + Octets(steps[1..])
  }

  /** Everything the callbacks see, in order. */
  function Events(steps: seq<Step>): seq<Event> {
    if steps == [] then [] else steps[0].Events() + Events(steps[1..])
  }

  /** The frames delivered, in order. */
  function Frames(steps: seq<Step>): seq<seq<byte>> {
    if steps == [] then []
    else (if steps[0].Deliver? then [steps[0].frame] else []) + Frames(steps[1..])
  }

  lemma {:induction false} OctetsConcat(a: seq<Step>, b: seq<Step>)
    ensures Octets(a + b) == Octets(a) + Octets(b)
  {
    if a == [] {
      assert a + b == b;
    } else {
      assert (a + b)[1..] == a[1..] + b;
      OctetsConcat(a[1..], b);
    }
  }

  lemma {:induction false} EventsConcat(a: seq<Step>, b: seq<Step>)
    ensures Events(a + b) == Events(a) + Events(b)
  {
    if a == [] {
      assert a + b == b;
    } else {
      assert (a + b)[1..] == a[1..] + b;
      EventsConcat(a[1..], b);
    }
  }

  // ---------------------------------------------------------------- conservation and termination

  lemma OctetsAfter(step: Step, o: Outcome)
    ensures Octets(o.After(step).steps) == step.Octets() + Octets(o.steps)
  {
    assert o.After(step).steps[1..] == o.steps;
  }

  /** If what follows a step conserves, so does the whole. */
  lemma StepConserves(buf: seq<byte>, step: Step, o: Outcome)
    requires step.Octets() <= buf
    requires Octets(o.steps) + o.rest == buf[|step.Octets()|..]
    ensures Octets(o.After(step).steps) + o.After(step).rest == buf
  {
    OctetsAfter(step, o);
    assert (step.Octets() + Octets(o.steps)) + o.rest == step.Octets() + buf[|step.Octets()|..];
  }

  /** Nothing is invented, duplicated or reordered. */
  lemma {:induction false} ExtractConserves(buf: seq<byte>)
    ensures Octets(Extract(buf).steps) + Extract(buf).rest == buf
    decreases |buf|
  {
    var n := NextStep(buf);
    if n.Take? {
      var rest := buf[|n.step.Octets()|..];
      ExtractConserves(rest);
      ExtractTake(buf);
      StepConserves(buf, n.step, Extract(rest));
    }
  }

  /** A buffer on which the extraction loop does nothing. */
  predicate Settled(buf: seq<byte>) {
    NextStep(buf) == Wait
  }

  /** Extraction runs to a settled buffer, and a settled buffer has room for at least one octet. */
  lemma {:induction false} ExtractSettles(buf: seq<byte>)
    ensures Settled(Extract(buf).rest)
    ensures |Extract(buf).rest| < CAPACITY
    decreases |buf|
  {
    var n := NextStep(buf);
    if n.Take? {
      ExtractSettles(buf[|n.step.Octets()|..]);
    }
  }
}
