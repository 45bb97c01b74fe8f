/**
 No frame is missed: what becomes of a frame that lies anywhere in the octets that enter the buffer, over one
 extraction and over whole runs.
 */
module Completeness {
  import opened Bytes
  import opened Frame
  import opened Parser
  import opened Chunking
  import opened Feeding

  // ---------------------------------------------------------------- completeness of one extraction

  /** A complete frame that fits the buffer starts at position `p`. */
  predicate FrameAt(buf: seq<byte>, p: nat) {
    && p + HEADER_SIZE <= |buf|
    && var total := ClaimedSize(buf[p..]);
       total <= CAPACITY && p + total <= |buf| && Accepts(buf[p..p + total])
  }

  /** The step that took octet `p` of the buffer, and the position of that octet in it. */
  function StepAt(steps: seq<Step>, p: nat): (Step, nat)
    requires p < |Octets(steps)|
  {
    var n := |steps[0].Octets()|;
    if p < n then (steps[0], p) else StepAt(steps[1..], p - n)
  }

  /** The frame whose header starts at position `p`. */
  function FrameFrom(buf: seq<byte>, p: nat): seq<byte>
    requires FrameAt(buf, p)
  {
    buf[p..p + ClaimedSize(buf[p..])]
  }

  lemma FrameAtShift(buf: seq<byte>, k: nat, p: nat)
    requires k <= p && FrameAt(buf, p)
    ensures FrameAt(buf[k..], p - k) && FrameFrom(buf[k..], p - k) == FrameFrom(buf, p)
  {
    var total := ClaimedSize(buf[p..]);
    assert buf[k..][p - k..] == buf[p..];
    assert buf[k..][p - k..p - k + total] == buf[p..p + total];
  }

  /** A delivered frame covers the octet, as its first octet only if it is `frame`. */
  predicate Catches(step: Step, at: nat, frame: seq<byte>) {
    step.Deliver? && (at == 0 ==> step.frame == frame)
  }

  /** Octet `p` left the buffer inside a delivered frame, and as its first octet only if that is `frame`. */
  predicate Caught(steps: seq<Step>, p: nat, frame: seq<byte>)
    requires p < |Octets(steps)|
  {
    var (step, at) := StepAt(steps, p);
    Catches(step, at, frame)
  }

  /** A reset cleared the octet, or an overflow dropped it from the head of the buffer. */
  predicate Loses(step: Step, at: nat) {
    step.Clear? || (step.Discard? && step.error == BufferOverflow && at == 0)
  }

  /** Octet `p` was caught, or lost in one of these two ways. */
  predicate CaughtOrLost(steps: seq<Step>, p: nat, frame: seq<byte>)
    requires p < |Octets(steps)|
  {
    var (step, at) := StepAt(steps, p);
    Catches(step, at, frame) || Loses(step, at)
  }

  /** No frame that starts in the octets of the step goes amiss, except by a reset or an overflow. */
  ghost predicate KeepsFrames(step: Step, stream: seq<byte>) {
    forall p: nat | p < |step.Octets()| && FrameAt(stream, p) ::
      Catches(step, p, FrameFrom(stream, p)) || Loses(step, p)
  }

  /** The same for consecutive steps along the stream that they consume. */
  ghost predicate AllKeepFrames(steps: seq<Step>, stream: seq<byte>) {
    steps == [] ||
    (var k := |steps[0].Octets()|;
     k <= |stream| && KeepsFrames(steps[0], stream) && AllKeepFrames(steps[1..], stream[k..]))
  }

  lemma CaughtOrLostFirst(steps: seq<Step>, p: nat, frame: seq<byte>)
    requires p < |Octets(steps)|
    ensures var k := |steps[0].Octets()|;
            if p < k then CaughtOrLost(steps, p, frame) <==> Catches(steps[0], p, frame) || Loses(steps[0], p)
            else p - k < |Octets(steps[1..])|
                 && (CaughtOrLost(steps, p, frame) <==> CaughtOrLost(steps[1..], p - k, frame))
  {
  }

  lemma KeptAtHead(steps: seq<Step>, stream: seq<byte>, p: nat)
    requires steps != [] && p < |steps[0].Octets()|
    requires AllKeepFrames(steps, stream) && FrameAt(stream, p)
    ensures var frame := FrameFrom(stream, p); Catches(steps[0], p, frame) || Loses(steps[0], p)
  {
  }

  lemma KeptBehind(steps: seq<Step>, stream: seq<byte>, p: nat, k: nat)
    requires steps != [] && k == |steps[0].Octets()| <= p
    requires AllKeepFrames(steps, stream) && FrameAt(stream, p)
    ensures k <= |stream| && AllKeepFrames(steps[1..], stream[k..])
    ensures FrameAt(stream[k..], p - k) && FrameFrom(stream[k..], p - k) == FrameFrom(stream, p)
  {
    FrameAtShift(stream, k, p);
  }

  lemma {:induction false} KeptAt(steps: seq<Step>, stream: seq<byte>, p: nat)
    requires AllKeepFrames(steps, stream) && FrameAt(stream, p) && p < |Octets(steps)|
    ensures CaughtOrLost(steps, p, FrameFrom(stream, p))
    decreases |steps|
  {
    var k := |steps[0].Octets()|;
    CaughtOrLostFirst(steps, p, FrameFrom(stream, p));
    if p < k {
      KeptAtHead(steps, stream, p);
    } else {
      KeptBehind(steps, stream, p, k);
      KeptAt(steps[1..], stream[k..], p - k);
    }
  }

  lemma {:induction false} KeepFramesConcat(a: seq<Step>, b: seq<Step>, stream: seq<byte>)
    requires |Octets(a)| <= |stream| && AllKeepFrames(a, stream) && AllKeepFrames(b, stream[|Octets(a)|..])
    ensures AllKeepFrames(a + b, stream)
    decreases |a|
  {
    if a == [] {
      assert a + b == b && stream[|Octets(a)|..] == stream;
    } else {
      var k := |a[0].Octets()|;
      assert (a + b)[1..] == a[1..] + b;
      assert stream[|Octets(a)|..] == stream[k..][|Octets(a[1..])|..];
      KeepFramesConcat(a[1..], b, stream[k..]);
    }
  }

  lemma HeadFrameDelivered(w: seq<byte>, later: seq<byte>, step: Step)
    requires NextStep(w) == Take(step) && FrameAt(w + later, 0)
    ensures step == Deliver(FrameFrom(w + later, 0))
  {
    var buf, total := w + later, ClaimedSize(w);
    assert buf[0..] == buf;
    ClaimExtends(w, later);
    assert total <= |w|;
    assert buf[..total] == w[..total];
  }

  lemma DroppedHoldsNoVersion(error: ErrorType, buf: seq<byte>, otherwise: nat, p: nat)
    requires otherwise <= |buf| && 0 < p < |Resync(error, buf, otherwise).dropped|
    ensures p < |buf| && buf[p] != PROTOCOL_VERSION
  {
  }

  /** A frame is not dropped by the step that takes its first octet, even if part of it has not arrived yet. */
  lemma HeadStepCatches(w: seq<byte>, later: seq<byte>, p: nat, step: Step)
    requires NextStep(w) == Take(step) && p < |step.Octets()|
    requires FrameAt(w + later, p)
    ensures step.Deliver? && (p == 0 ==> step.frame == FrameFrom(w + later, p))
  {
    if p == 0 {
      HeadFrameDelivered(w, later, step);
    } else if !step.Deliver? {
      FrameStartsWithVersion(w + later, p);
      assert (w + later)[p] == w[p];
      DroppedHoldsNoVersion(step.error, w, if step.error == InvalidFrameSize then |w| else ClaimedSize(w), p);
    }
  }

  lemma FrameStartsWithVersion(buf: seq<byte>, p: nat)
    requires FrameAt(buf, p)
    ensures p < |buf| && buf[p] == PROTOCOL_VERSION
  {
  }

  lemma ShiftAcross(w: seq<byte>, later: seq<byte>, k: nat)
    requires k <= |w|
    ensures (w + later)[k..] == w[k..] + later
  {
  }

  lemma StepKeepsFrames(w: seq<byte>, later: seq<byte>, step: Step)
    requires NextStep(w) == Take(step)
    ensures KeepsFrames(step, w + later)
  {
    forall p: nat | p < |step.Octets()| && FrameAt(w + later, p)
      ensures Catches(step, p, FrameFrom(w + later, p))
    {
      HeadStepCatches(w, later, p, step);
    }
  }

  lemma KeepFramesAfter(step: Step, o: Outcome, stream: seq<byte>)
    requires |step.Octets()| <= |stream|
    requires KeepsFrames(step, stream) && AllKeepFrames(o.steps, stream[|step.Octets()|..])
    ensures AllKeepFrames(o.After(step).steps, stream)
  {
    assert o.After(step).steps[1..] == o.steps;
  }

  lemma {:induction false} ExtractKeepsFrames(w: seq<byte>, later: seq<byte>)
    ensures AllKeepFrames(Extract(w).steps, w + later)
    decreases |w|
  {
    var n := NextStep(w);
    if n.Take? {
      var k := |n.step.Octets()|;
      ExtractTake(w);
      ExtractKeepsFrames(w[k..], later);
      StepKeepsFrames(w, later, n.step);
      ShiftAcross(w, later, k);
      KeepFramesAfter(n.step, Extract(w[k..]), w + later);
    }
  }

  lemma {:induction false} StepAtIsStep(steps: seq<Step>, p: nat)
    requires p < |Octets(steps)|
    ensures StepAt(steps, p).0 in steps
    decreases |steps|
  {
    if p >= |steps[0].Octets()| {
      StepAtIsStep(steps[1..], p - |steps[0].Octets()|);
    }
  }

  /** Neither an overflow nor a reset is among the steps. */
  predicate NothingLost(steps: seq<Step>) {
    forall step | step in steps :: !step.Clear? && (step.Discard? ==> step.error != BufferOverflow)
  }

  lemma {:induction false} ExtractLosesNothing(buf: seq<byte>)
    ensures NothingLost(Extract(buf).steps)
    decreases |buf|
  {
    if !Settled(buf) {
      ExtractTake(buf);
      ExtractLosesNothing(buf[|NextStep(buf).step.Octets()|..]);
    }
  }

  lemma KeptIsCaught(steps: seq<Step>, stream: seq<byte>, p: nat)
    requires AllKeepFrames(steps, stream) && NothingLost(steps)
    requires FrameAt(stream, p) && p < |Octets(steps)|
    ensures Caught(steps, p, FrameFrom(stream, p))
  {
    KeptAt(steps, stream, p);
    StepAtIsStep(steps, p);
  }

  /**
   No frame is missed: wherever one lies when an extraction starts, even if part of it has yet to arrive, it is
   delivered, or its first octet lies inside another delivered frame or is still in the buffer.
   */
  lemma NothingMissed(w: seq<byte>, later: seq<byte>, p: nat)
    requires FrameAt(w + later, p) && p < |Octets(Extract(w).steps)|
    ensures Caught(Extract(w).steps, p, FrameFrom(w + later, p))
  {
    ExtractKeepsFrames(w, later);
    ExtractLosesNothing(w);
    KeptIsCaught(Extract(w).steps, w + later, p);
  }

  // ---------------------------------------------------------------- completeness of whole runs

  lemma OneStepKeeps(step: Step, stream: seq<byte>)
    requires |step.Octets()| <= |stream| && KeepsFrames(step, stream)
    ensures AllKeepFrames([step], stream)
  {
  }

  lemma OverflowKeepsFrames(buf: seq<byte>, later: seq<byte>, step: Step)
    requires step == Resync(BufferOverflow, buf, |buf|)
    ensures KeepsFrames(step, buf + later)
  {
    forall p: nat | p < |step.Octets()| && FrameAt(buf + later, p)
      ensures p == 0
    {
      if p > 0 {
        FrameStartsWithVersion(buf + later, p);
        assert (buf + later)[p] == buf[p];
        DroppedHoldsNoVersion(BufferOverflow, buf, |buf|, p);
      }
    }
  }

  lemma OverflowFeedKeepsFrames(buf: seq<byte>, chunk: seq<byte>, later: seq<byte>)
    requires |buf| <= CAPACITY && |chunk| > CAPACITY - |buf|
    ensures var r := FeedChunk(buf, chunk); AllKeepFrames(r.steps, (buf + r.accepted) + later)
  {
    var r := FeedChunk(buf, chunk);
    var step := Resync(BufferOverflow, buf, |buf|);
    var k, all := |step.Octets()|, (buf + r.accepted) + later;
    Regroup(buf, r.accepted, later);
    OverflowKeepsFrames(buf, r.accepted + later, step);
    OneStepKeeps(step, all);
    if r.accepted == chunk {
      ShiftAcross(buf, chunk, k);
      ShiftAcross(buf + chunk, later, k);
      ExtractKeepsFrames(buf[k..] + chunk, later);
      OctetsOfOne(step);
      KeepFramesConcat([step], Extract(buf[k..] + chunk).steps, all);
    }
  }

  lemma PerformKeepsFrames(buf: seq<byte>, op: Operation, later: seq<byte>)
    requires |buf| <= CAPACITY
    ensures var r := Perform(buf, op); AllKeepFrames(r.steps, (buf + r.accepted) + later)
  {
    if op.Reset? {
      OneStepKeeps(Clear(buf), (buf + []) + later);
    } else if op.chunk != [] && op.listening {
      if |op.chunk| > CAPACITY - |buf| {
        OverflowFeedKeepsFrames(buf, op.chunk, later);
      } else {
        ExtractKeepsFrames(buf + op.chunk, later);
      }
    } else {
      OneStepKeeps(Refuse, (buf + []) + later);
    }
  }

  lemma StreamAfter<T>(gone: seq<T>, rest: seq<T>, buf: seq<T>, first: seq<T>, later: seq<T>)
    requires gone + rest == buf + first
    ensures (buf + (first + later))[|gone|..] == rest + later
    ensures |gone| <= |buf + (first + later)|
  {
    Regroup(buf, first, later);
    Regroup(gone, rest, later);
  }

  lemma {:induction false} RunKeepsFrames(buf: seq<byte>, ops: seq<Operation>)
    requires |buf| < CAPACITY
    ensures AllKeepFrames(Run(buf, ops).steps, buf + Run(buf, ops).accepted)
    decreases |ops|
  {
    if ops != [] {
      PerformBound(buf, ops[0]);
      var first := Perform(buf, ops[0]);
      var r := Run(first.rest, ops[1..]);
      RunKeepsFrames(first.rest, ops[1..]);
      PerformKeepsFrames(buf, ops[0], r.accepted);
      Regroup(buf, first.accepted, r.accepted);
      PerformConserves(buf, ops[0]);
      StreamAfter(Octets(first.steps), first.rest, buf, first.accepted, r.accepted);
      KeepFramesConcat(first.steps, r.steps, buf + (first.accepted + r.accepted));
    }
  }

  /**
   Over any run, with any garbage, cuts, overflows and resets: a frame in the accepted stream is delivered, or its
   first octet lies inside another delivered frame, is still in the buffer, was cleared by a reset, or was at the
   head of the buffer when an overflow dropped it.
   */
  lemma RunMissesNothing(buf: seq<byte>, ops: seq<Operation>, p: nat)
    requires |buf| < CAPACITY
    requires var r := Run(buf, ops);
             FrameAt(buf + r.accepted, p) && p < |Octets(r.steps)|
    ensures var r := Run(buf, ops);
            CaughtOrLost(r.steps, p, FrameFrom(buf + r.accepted, p))
  {
    RunKeepsFrames(buf, ops);
    KeptAt(Run(buf, ops).steps, buf + Run(buf, ops).accepted, p);
  }
}
