/**
 What the callbacks see and what is left in the buffer, operation by operation, in terms of the octets: the size that
 a header claims, the first version octet after the head, and the events in order.
 */
module Callbacks {
  import opened Bytes
  import opened Frame
  import opened Parser
  import opened Chunking
  import opened Feeding

  /** The first octet after the head that could start a frame is at `p`, or there is none and `p` is the end. */
  predicate NextStart(buf: seq<byte>, p: nat) {
    && p <= |buf|
    && (buf != [] ==> p > 0)
    && (forall i | 0 < i < p :: buf[i] != 1)
    && (0 < p < |buf| ==> buf[p] == 1)
  }

  lemma SearchFinds(buf: seq<byte>) returns (p: nat)
    ensures NextStart(buf, p) && (buf != [] ==> p == SearchVersion(buf, 1))
  {
    p := if buf == [] then 0 else SearchVersion(buf, 1);
  }

  /** The error, then the attempt to recover. */
  function Trouble(error: ErrorType): seq<Event> {
    [ErrorReported(error), ErrorReported(SyncRecoveryAttempt)]
  }

  /** An extraction that starts by letting the first `k` octets go while the callbacks see `events`. */
  predicate Starts(buf: seq<byte>, k: nat, events: seq<Event>)
    requires k <= |buf|
  {
    var later := Extract(buf[k..]);
    Observe(Extract(buf)) == Observation(events + Events(later.steps), later.rest)
  }

  lemma TakenFirst(buf: seq<byte>, step: Step)
    requires NextStep(buf) == Take(step)
    ensures |step.Octets()| <= |buf| && Starts(buf, |step.Octets()|, step.Events())
  {
    ExtractTake(buf);
    EventsAfter(step, Extract(buf[|step.Octets()|..]));
  }

  lemma ClaimInOctets(buf: seq<byte>)
    requires |buf| >= 8
    ensures ClaimedSize(buf)
         == 12 + buf[4] as int + 256 * buf[5] as int + 65536 * buf[6] as int + 16777216 * buf[7] as int
  {
    assert buf[4..8] == [buf[4], buf[5], buf[6], buf[7]];
  }

  /**
   One iteration of the extraction, whatever is in the buffer.  Nothing happens while a header, or the frame that it
   announces, is incomplete.  A claim over the capacity, or a complete frame that fails the checks, is reported and
   the octets before the next possible start go; if there is none, the whole buffer or the rejected frame goes.
   */
  lemma ExtractionStarts(buf: seq<byte>, total: nat) returns (p: nat)
    requires |buf| >= 8 ==>
               total == 12 + buf[4] as int + 256 * buf[5] as int + 65536 * buf[6] as int + 16777216 * buf[7] as int
    ensures NextStart(buf, p)
    ensures if |buf| < 8 || (total <= 4108 && |buf| < total) then Extract(buf) == Outcome([], buf)
            else if total > 4108 then Starts(buf, p, Trouble(InvalidFrameSize))
            else if Accepts(buf[..total]) then Starts(buf, total, [FrameDelivered(buf[8..total - 4])])
            else Starts(buf, if p < |buf| then p else total, Trouble(CrcFailure))
  {
    p := SearchFinds(buf);
    if |buf| >= 8 {
      ClaimInOctets(buf);
      WhichStep(buf, total);
      if NextStep(buf).Take? {
        TakenFirst(buf, NextStep(buf).step);
      }
      if total > 4108 {
        ResyncTakes(InvalidFrameSize, buf, |buf|);
      } else if total <= |buf| {
        ResyncTakes(CrcFailure, buf, total);
        DeliveredPayload(buf, total);
      }
    }
  }

  lemma WhichStep(buf: seq<byte>, total: nat)
    requires |buf| >= 8 && total == ClaimedSize(buf)
    ensures NextStep(buf)
         == if total > 4108 then Take(Resync(InvalidFrameSize, buf, |buf|))
            else if |buf| < total then Wait
            else if Accepts(buf[..total]) then Take(Deliver(buf[..total]))
            else Take(Resync(CrcFailure, buf, total))
  {
  }

  lemma DeliveredPayload(buf: seq<byte>, total: nat)
    requires 12 <= total <= |buf|
    ensures Step.Deliver(buf[..total]).Events() == [FrameDelivered(buf[8..total - 4])]
  {
    assert buf[..total][8..total - 4] == buf[8..total - 4];
  }

  lemma ResyncTakes(error: ErrorType, buf: seq<byte>, otherwise: nat)
    requires buf != [] && otherwise <= |buf|
    ensures var step, p := Resync(error, buf, otherwise), SearchVersion(buf, 1);
            |step.Octets()| == (if p < |buf| then p else otherwise) && step.Events() == Trouble(error)
  {
  }

  // ---------------------------------------------------------------- operations

  /** What an operation shows and leaves, and what it takes in. */
  predicate Does(buf: seq<byte>, op: Operation, events: seq<Event>, rest: seq<byte>, accepted: seq<byte>)
    requires |buf| <= CAPACITY
  {
    var r := Perform(buf, op);
    Events(r.steps) == events && r.rest == rest && r.accepted == accepted
  }

  /** An empty chunk is not noticed, registered or not; a chunk that nobody listens for is reported and turned away. */
  lemma UnheardFeed(buf: seq<byte>, chunk: seq<byte>, listening: bool)
    requires |buf| <= 4108
    ensures chunk == [] ==> Does(buf, Feed(chunk, listening), [], buf, [])
    ensures chunk != [] && !listening ==> Does(buf, Feed(chunk, listening), [ErrorReported(InvalidHeader)], buf, [])
  {
    EventsOne(Refuse);
  }

  lemma EventsOne(step: Step)
    ensures Events([step]) == step.Events()
  {
  }

  /** A reset shows nothing and leaves nothing. */
  lemma ResetSilent(buf: seq<byte>)
    requires |buf| <= 4108
    ensures Does(buf, Reset, [], [], [])
  {
    EventsOne(Clear(buf));
  }

  /** A chunk that fits is appended and extracted from. */
  lemma FittingFeed(buf: seq<byte>, chunk: seq<byte>)
    requires chunk != [] && |buf| + |chunk| <= 4108
    ensures var o := Extract(buf + chunk); Does(buf, Feed(chunk, true), Events(o.steps), o.rest, chunk)
  {
  }

  /**
   A chunk that does not fit: the overflow and the attempt to recover are reported, and the octets before the next
   possible start go, or all of them.  If the chunk fits now, it is appended and extracted from; otherwise it is
   discarded and nothing is extracted.
   */
  lemma OverflowingFeed(buf: seq<byte>, chunk: seq<byte>) returns (p: nat)
    requires |buf| <= 4108 < |buf| + |chunk|
    ensures NextStart(buf, p)
    ensures var kept := buf[p..];
            if |kept| + |chunk| > 4108 then Does(buf, Feed(chunk, true), Trouble(BufferOverflow), kept, [])
            else var o := Extract(kept + chunk);
                 Does(buf, Feed(chunk, true), Trouble(BufferOverflow) + Events(o.steps), o.rest, chunk)
  {
    p := SearchFinds(buf);
    var step := Resync(BufferOverflow, buf, |buf|);
    if buf != [] {
      ResyncTakes(BufferOverflow, buf, |buf|);
    }
    EventsOne(step);
    EventsConcat([step], Extract(buf[p..] + chunk).steps);
  }
}
