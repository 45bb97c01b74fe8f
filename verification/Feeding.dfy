/**
 Whole runs of the stream processor: chunks fed in any sizes, overflow, missing callbacks and resets.
 */
module Feeding {
  import opened Bytes
  import opened Frame
  import opened Parser
  import opened Chunking

  datatype Operation = Feed(chunk: seq<byte>, listening: bool) | Reset

  /** The steps taken, the buffer left, and the part of the input that entered the buffer. */
  datatype Result = Result(steps: seq<Step>, rest: seq<byte>, accepted: seq<byte>)

  /** A chunk arrives while a frame callback is registered. */
  function FeedChunk(buf: seq<byte>, chunk: seq<byte>): Result
    requires |buf| <= CAPACITY
  {
    if chunk == [] then Result([], buf, [])
    else if |chunk| > CAPACITY - |buf| then
      var step := Resync(BufferOverflow, buf, |buf|);
      var kept := buf[|step.Octets()|..];
      if |chunk| > CAPACITY - |kept| then Result([step], kept, [])
      else
        var o := Extract(kept + chunk);
        Result([step] + o.steps, o.rest, chunk)
    else
      var o := Extract(buf + chunk);
      Result(o.steps, o.rest, chunk)
  }

  function Perform(buf: seq<byte>, op: Operation): Result
    requires |buf| <= CAPACITY
  {
    match op
    case Reset => Result([Clear(buf)], [], [])
    case Feed(chunk, listening) =>
      if chunk == [] || listening then FeedChunk(buf, chunk) else Result([Refuse], buf, [])
  }

  /** The buffer between calls always has room for one more octet. */
  lemma PerformBound(buf: seq<byte>, op: Operation)
    requires |buf| < CAPACITY
    ensures |Perform(buf, op).rest| < CAPACITY
  {
    if op.Feed? && op.chunk != [] && op.listening {
      ExtractSettles(buf + op.chunk);
      var step := Resync(BufferOverflow, buf, |buf|);
      ExtractSettles(buf[|step.Octets()|..] + op.chunk);
    }
  }

  /** A run: the steps of all operations, the buffer at the end, and everything that entered it. */
  function Run(buf: seq<byte>, ops: seq<Operation>): (r: Result)
    requires |buf| < CAPACITY
    ensures |r.rest| < CAPACITY
    decreases |ops|
  {
    if ops == [] then Result([], buf, [])
    else
      PerformBound(buf, ops[0]);
      var first := Perform(buf, ops[0]);
      var later := Run(first.rest, ops[1..]);
      Result(first.steps + later.steps, later.rest, first.accepted + later.accepted)
  }

  // ---------------------------------------------------------------- conservation and soundness

  /** Two consecutive conserving stages conserve. */
  lemma Telescope<T>(a: seq<T>, k: seq<T>, b: seq<T>, c: seq<T>, o: seq<T>, r: seq<T>, d: seq<T>)
    requires a + k == b + c && o + r == k + d
    ensures (a + o) + r == b + (c + d)
  {
    assert (a + o) + r == a + (o + r);
    assert a + (k + d) == (a + k) + d;
    assert (b + c) + d == b + (c + d);
  }

  lemma FeedConserves(buf: seq<byte>, chunk: seq<byte>)
    requires |buf| <= CAPACITY
    ensures var r := FeedChunk(buf, chunk); Octets(r.steps) + r.rest == buf + r.accepted
  {
    if |chunk| > CAPACITY - |buf| {
      OverflowConserves(buf, chunk);
    } else {
      ExtractConserves(buf + chunk);
    }
  }

  lemma OverflowConserves(buf: seq<byte>, chunk: seq<byte>)
    requires |buf| <= CAPACITY && |chunk| > CAPACITY - |buf|
    ensures var r := FeedChunk(buf, chunk); Octets(r.steps) + r.rest == buf + r.accepted
  {
    var step := Resync(BufferOverflow, buf, |buf|);
    var kept := buf[|step.Octets()|..];
    var o := Extract(kept + chunk);
    OctetsOfOne(step);
    assert step.Octets() + kept == buf + [];
    ExtractConserves(kept + chunk);
    OctetsConcat([step], o.steps);
    Telescope(step.Octets(), kept, buf, [], Octets(o.steps), o.rest, chunk);
    assert [] + chunk == chunk;
  }

  lemma OctetsOfOne(step: Step)
    ensures Octets([step]) == step.Octets()
  {
  }

  /** Every octet that entered the buffer has left it in a step, in order, or is still there. */
  lemma {:induction false} RunConserves(buf: seq<byte>, ops: seq<Operation>)
    requires |buf| < CAPACITY
    ensures var r := Run(buf, ops); Octets(r.steps) + r.rest == buf + r.accepted
    decreases |ops|
  {
    if ops != [] {
      var first := Perform(buf, ops[0]);
      PerformConserves(buf, ops[0]);
      PerformBound(buf, ops[0]);
      var later := Run(first.rest, ops[1..]);
      RunConserves(first.rest, ops[1..]);
      OctetsConcat(first.steps, later.steps);
      Telescope(Octets(first.steps), first.rest, buf, first.accepted, Octets(later.steps), later.rest, later.accepted);
    }
  }

  lemma PerformConserves(buf: seq<byte>, op: Operation)
    requires |buf| <= CAPACITY
    ensures var r := Perform(buf, op); Octets(r.steps) + r.rest == buf + r.accepted
  {
    if op.Reset? {
      OctetsOfOne(Clear(buf));
    } else {
      FeedConserves(buf, op.chunk);
      OctetsOfOne(Refuse);
    }
  }

  predicate SoundFrames(steps: seq<Step>) {
    forall step | step in steps && step.Deliver? :: Accepts(step.frame) && |step.frame| <= CAPACITY
  }

  /** Extraction only delivers frames that some sender could have printed. */
  lemma {:induction false} ExtractSound(buf: seq<byte>)
    ensures SoundFrames(Extract(buf).steps)
    decreases |buf|
  {
    if !Settled(buf) {
      ExtractTake(buf);
      ExtractSound(buf[|NextStep(buf).step.Octets()|..]);
    }
  }

  /** Whatever is delivered in a run is a frame that some sender could have printed. */
  lemma {:induction false} RunSound(buf: seq<byte>, ops: seq<Operation>)
    requires |buf| < CAPACITY
    ensures SoundFrames(Run(buf, ops).steps)
    decreases |ops|
  {
    if ops != [] {
      var op := ops[0];
      PerformBound(buf, op);
      RunSound(Perform(buf, op).rest, ops[1..]);
      if op.Feed? {
        ExtractSound(buf + op.chunk);
        ExtractSound(buf[|Resync(BufferOverflow, buf, |buf|).Octets()|..] + op.chunk);
      }
    }
  }

  // ---------------------------------------------------------------- windows and sizes

  /** Where in the accepted stream the octets of step `i` start. */
  function Offset(steps: seq<Step>, i: nat): nat
    requires i <= |steps|
  {
    |Octets(steps[..i])|
  }

  lemma StepWindow(steps: seq<Step>, i: nat)
    requires i < |steps|
    ensures Offset(steps, i + 1) == Offset(steps, i) + |steps[i].Octets()| <= |Octets(steps)|
    ensures Octets(steps)[Offset(steps, i)..Offset(steps, i + 1)] == steps[i].Octets()
  {
    assert steps == steps[..i + 1] + steps[i + 1..] && steps[..i + 1] == steps[..i] + [steps[i]];
    OctetsConcat(steps[..i + 1], steps[i + 1..]);
    OctetsConcat(steps[..i], [steps[i]]);
    OctetsOfOne(steps[i]);
  }

  lemma {:induction false} OffsetsIncrease(steps: seq<Step>, i: nat, j: nat)
    requires i <= j <= |steps|
    ensures Offset(steps, i) <= Offset(steps, j)
    decreases j - i
  {
    if i < j {
      StepWindow(steps, i);
      OffsetsIncrease(steps, i + 1, j);
    }
  }

  /**
   The octets of a step are the substring of the accepted stream that starts at its offset, and the steps after it
   start behind that window: delivered frames and discarded stretches lie disjoint and in order.
   */
  lemma RunWindows(buf: seq<byte>, ops: seq<Operation>, i: nat, j: nat)
    requires |buf| < CAPACITY
    requires i < j <= |Run(buf, ops).steps|
    ensures var r := Run(buf, ops);
            var stream := buf + r.accepted;
            var from, to := Offset(r.steps, i), Offset(r.steps, i) + |r.steps[i].Octets()|;
            to <= Offset(r.steps, j) <= |stream| && stream[from..to] == r.steps[i].Octets()
  {
    var r := Run(buf, ops);
    RunConserves(buf, ops);
    WindowsIn(r.steps, r.rest, i, j);
  }

  lemma WindowsIn(steps: seq<Step>, rest: seq<byte>, i: nat, j: nat)
    requires i < j <= |steps|
    ensures var stream := Octets(steps) + rest;
            var from, to := Offset(steps, i), Offset(steps, i) + |steps[i].Octets()|;
            to <= Offset(steps, j) <= |stream| && stream[from..to] == steps[i].Octets()
  {
    StepWindow(steps, i);
    OffsetsIncrease(steps, i + 1, j);
    OffsetsIncrease(steps, j, |steps|);
    assert steps[..|steps|] == steps;
  }

  function DeliveredSize(steps: seq<Step>): nat {
    if steps == [] then 0
    else (if steps[0].Deliver? then |steps[0].frame| else 0) + DeliveredSize(steps[1..])
  }

  function DroppedSize(steps: seq<Step>): nat {
    if steps == [] then 0
    else (if steps[0].Discard? || steps[0].Clear? then |steps[0].dropped| else 0) + DroppedSize(steps[1..])
  }

  lemma {:induction false} SizesAddUp(steps: seq<Step>)
    ensures |Octets(steps)| == DeliveredSize(steps) + DroppedSize(steps)
  {
    if steps != [] {
      SizesAddUp(steps[1..]);
    }
  }

  /** Accepted octets are delivered, dropped or still buffered, and each only once. */
  lemma RunAccounting(ops: seq<Operation>)
    ensures var r := Run([], ops);
            |r.accepted| == DeliveredSize(r.steps) + DroppedSize(r.steps) + |r.rest|
  {
    RunConserves([], ops);
    SizesAddUp(Run([], ops).steps);
    assert [] + Run([], ops).accepted == Run([], ops).accepted;
  }

  // ---------------------------------------------------------------- cuts between feeds

  /**
   Feeding two chunks that fit together, or feeding their concatenation, shows the same callbacks and leaves
   the same buffer exactly under the condition of `CutInvisible`; an empty chunk never matters.
   */
  lemma FeedSplitExactly(buf: seq<byte>, a: seq<byte>, b: seq<byte>)
    requires |buf| + |a| + |b| <= CAPACITY
    ensures var first := FeedChunk(buf, a);
            && |first.rest| <= CAPACITY
            && var second := FeedChunk(first.rest, b);
               var once := FeedChunk(buf, a + b);
               (Observe(Outcome(first.steps + second.steps, second.rest)) == Observe(Outcome(once.steps, once.rest))
                <==> a == [] || b == [] || CutInvisible(Extract(buf + a), b))
  {
    var first := FeedChunk(buf, a);
    if a == [] {
      assert a + b == b;
      assert [] + FeedChunk(buf, b).steps == FeedChunk(buf, b).steps;
    } else {
      RestIsSuffix(buf + a);
      if b == [] {
        assert a + b == a && first.steps + [] == first.steps;
      } else {
        assert (buf + a) + b == buf + (a + b);
        SplitExactly(buf + a, b);
      }
    }
  }

  // ---------------------------------------------------------------- overflow

  /** One octet at a time, there is never an overflow. */
  lemma {:induction false} SingleOctetsNeverOverflow(buf: seq<byte>, ops: seq<Operation>)
    requires |buf| < CAPACITY
    requires forall op | op in ops && op.Feed? :: |op.chunk| <= 1
    ensures forall step | step in Run(buf, ops).steps && step.Discard? :: step.error != BufferOverflow
    decreases |ops|
  {
    if ops != [] {
      var op := ops[0];
      PerformBound(buf, op);
      SingleOctetsNeverOverflow(Perform(buf, op).rest, ops[1..]);
      if op.Feed? {
        ExtractErrors(buf + op.chunk);
      }
    }
  }

  lemma {:induction false} ExtractErrors(buf: seq<byte>)
    ensures forall step | step in Extract(buf).steps && step.Discard? :: step.error in {InvalidFrameSize, CrcFailure}
    decreases |buf|
  {
    if !Settled(buf) {
      ExtractTake(buf);
      ExtractErrors(buf[|NextStep(buf).step.Octets()|..]);
    }
  }
}
