/**
 Which frames are delivered: streams of frames, recovery after garbage, loss by overflow, and the round trip from
 a sender's requests to the receiver's callbacks.
 */
module Delivery {
  import opened Bytes
  import opened Frame
  import opened Parser
  import opened Chunking
  import opened Feeding
  import opened Completeness
  import FrameTransport

  // ---------------------------------------------------------------- streams of frames

  function Join(parts: seq<seq<byte>>): seq<byte> {
    if parts == [] then [] else parts[0] + Join(parts[1..])
  }

  predicate Good(frames: seq<seq<byte>>) {
    forall f | f in frames :: Accepts(f) && |f| <= CAPACITY
  }

  function Deliveries(frames: seq<seq<byte>>): seq<Step> {
    if frames == [] then [] else [Deliver(frames[0])] + Deliveries(frames[1..])
  }

  lemma FrameFirst(f: seq<byte>, rest: seq<byte>)
    requires Accepts(f) && |f| <= CAPACITY
    ensures NextStep(f + rest) == Take(Deliver(f))
    ensures Extract(f + rest) == Extract(rest).After(Deliver(f))
  {
    var buf := f + rest;
    assert buf[4..8] == f[4..8];
    assert buf[..|f|] == f && buf[|f|..] == rest;
    assert NextStep(buf) == Take(Deliver(f));
    ExtractTake(buf);
  }

  /** A stream of frames is delivered frame by frame. */
  lemma {:induction false} StreamDelivered(frames: seq<seq<byte>>, tail: seq<byte>)
    requires Good(frames) && Settled(tail)
    ensures Extract(Join(frames) + tail) == Outcome(Deliveries(frames), tail)
    decreases |frames|
  {
    if frames == [] {
      assert Join(frames) + tail == tail;
    } else {
      StreamDelivered(frames[1..], tail);
      FrameFirst(frames[0], Join(frames[1..]) + tail);
      assert Join(frames) + tail == frames[0] + (Join(frames[1..]) + tail);
    }
  }

  lemma PartialFrameWaits(f: seq<byte>, q: seq<byte>)
    requires Accepts(f) && |f| <= CAPACITY && q <= f && |q| < |f|
    ensures Settled(q)
  {
    if |q| >= HEADER_SIZE {
      assert q[4..8] == f[4..8];
    }
  }

  lemma PrefixOfConcat(q: seq<byte>, f: seq<byte>, g: seq<byte>)
    requires q <= f + g
    ensures |q| < |f| ==> q <= f
    ensures |q| >= |f| ==> q == f + q[|f|..] && q[|f|..] <= g
  {
  }

  /** However a stream of frames is cut, extraction from the first part never searches for the version byte. */
  lemma {:induction false} PrefixClean(frames: seq<seq<byte>>, q: seq<byte>)
    requires Good(frames) && q <= Join(frames)
    ensures NoFailedSync(Extract(q).steps)
    decreases |frames|
  {
    if frames != [] {
      var f := frames[0];
      if |q| < |f| {
        PrefixOfConcat(q, f, Join(frames[1..]));
        PartialFrameWaits(f, q);
      } else {
        var rest := q[|f|..];
        PrefixOfConcat(q, f, Join(frames[1..]));
        PrefixClean(frames[1..], rest);
        FrameFirst(f, rest);
        NoFailedSyncAfter(Deliver(f), Extract(rest));
      }
    }
  }

  // ---------------------------------------------------------------- recovery

  /** The length claimed at the head of the buffer is over capacity or already available. */
  predicate ClaimDecidable(buf: seq<byte>)
    requires |buf| >= HEADER_SIZE
  {
    ClaimedSize(buf) > CAPACITY || ClaimedSize(buf) <= |buf|
  }

  lemma StreamHead(frames: seq<seq<byte>>, tail: seq<byte>)
    requires frames != [] && Good(frames)
    ensures var y := Join(frames) + tail; |y| >= HEADER_SIZE + CRC_SIZE && y[0] == PROTOCOL_VERSION
  {
  }

  /**
   Garbage without a version byte in front of frames: one extraction drops exactly the garbage and delivers
   all the frames if the length that the head seems to claim is over capacity or already available;
   otherwise it does nothing at all.
   */
  lemma RecoveryExactly(garbage: seq<byte>, frames: seq<seq<byte>>, tail: seq<byte>)
    requires garbage != [] && Blind(garbage)
    requires frames != [] && Good(frames) && Settled(tail)
    ensures var buf := garbage + (Join(frames) + tail);
            && |buf| >= HEADER_SIZE
            && (Frames(Extract(buf).steps) == frames <==> ClaimDecidable(buf))
            && (Extract(buf) == Outcome([], buf) <==> !ClaimDecidable(buf))
  {
    var y := Join(frames) + tail;
    StreamHead(frames, tail);
    if ClaimDecidable(garbage + y) {
      var error := if ClaimedSize(garbage + y) > CAPACITY then InvalidFrameSize else CrcFailure;
      var step := Discard(error, garbage, true);
      GarbageDiscarded(garbage, y, error);
      StreamDelivered(frames, tail);
      FramesOfDeliveries(frames);
      FramesAfterDiscard(step, Extract(y));
    } else {
      assert Frames([]) == [];
    }
  }

  /** Eight octets whose length field makes 4107 the size claimed. */
  lemma ClaimOf4107(header: seq<byte>, rest: seq<byte>)
    requires |header| == HEADER_SIZE && header[4..8] == [0xFF, 0x0F, 0, 0]
    ensures ClaimedSize(header + rest) == 4107
  {
    assert (header + rest)[4..8] == [0xFF, 0x0F, 0, 0];
  }

  /** Eight octets that seem to claim 4107 and hold no version byte. */
  predicate Stalling(garbage: seq<byte>) {
    garbage == [0, 0, 0, 0, 0xFF, 0x0F, 0, 0]
  }

  lemma StallingFields(garbage: seq<byte>)
    requires Stalling(garbage)
    ensures |garbage| == HEADER_SIZE && garbage[4..8] == [0xFF, 0x0F, 0, 0] && Blind(garbage)
  {
  }

  /** The condition can fail: a complete frame behind such octets is not extracted. */
  lemma RecoveryCanStall(garbage: seq<byte>, f: seq<byte>)
    requires Stalling(garbage) && Accepts(f) && |f| < 4000
    ensures Blind(garbage) && !ClaimDecidable(garbage + (Join([f]) + []))
    ensures Extract(garbage + f) == Outcome([], garbage + f)
  {
    StallingFields(garbage);
    assert Join([f]) + [] == f;
    ClaimOf4107(garbage, f);
    RecoveryExactly(garbage, [f], []);
  }

  lemma FramesAfterDiscard(step: Step, o: Outcome)
    requires step.Discard?
    ensures Frames(o.After(step).steps) == Frames(o.steps) && o.After(step).steps != []
  {
  }

  lemma GarbageDiscarded(garbage: seq<byte>, y: seq<byte>, error: ErrorType)
    requires garbage != [] && Blind(garbage)
    requires |y| >= HEADER_SIZE + CRC_SIZE && y[0] == PROTOCOL_VERSION
    requires ClaimDecidable(garbage + y)
    requires error == if ClaimedSize(garbage + y) > CAPACITY then InvalidFrameSize else CrcFailure
    ensures Extract(garbage + y) == Extract(y).After(Discard(error, garbage, true))
  {
    var buf := garbage + y;
    SearchSkips(garbage, y);
    assert buf[..|garbage|] == garbage && buf[|garbage|..] == y;
    assert buf[0] == garbage[0];
    assert NextStep(buf) == Take(Discard(error, garbage, true));
    ExtractTake(buf);
  }

  lemma {:induction false} FramesOfDeliveries(frames: seq<seq<byte>>)
    ensures Frames(Deliveries(frames)) == frames
    decreases |frames|
  {
    if frames != [] {
      FramesOfDeliveries(frames[1..]);
      assert Deliveries(frames)[1..] == Deliveries(frames[1..]);
      assert frames == [frames[0]] + frames[1..];
    }
  }

  // ---------------------------------------------------------------- loss by overflow

  /** An overflow drops a complete frame exactly when one waits at the head of the buffer. */
  lemma OverflowDropsExactly(buf: seq<byte>)
    ensures (exists p: nat :: p < |Resync(BufferOverflow, buf, |buf|).dropped| && FrameAt(buf, p)) <==> FrameAt(buf, 0)
  {
    var dropped := Resync(BufferOverflow, buf, |buf|).dropped;
    if FrameAt(buf, 0) {
      assert 0 < |dropped|;
    }
    forall p: nat | p < |dropped| && FrameAt(buf, p)
      ensures p == 0
    {
      FrameStartsWithVersion(buf, p);
    }
  }

  /** Whether, after one more operation, the buffer was left by an extraction or emptied. */
  predicate CalmAfter(buf: seq<byte>, calm: bool, op: Operation)
    requires |buf| < CAPACITY
  {
    match op
    case Reset => true
    case Feed(chunk, listening) => if chunk == [] || !listening then calm else Perform(buf, op).accepted == chunk
  }

  /**
   What a caller can tell from the chunks that were taken in: since the last reset or accepted chunk, if any, no
   chunk was discarded.  `calm` says so for what came before.
   */
  predicate Calm(buf: seq<byte>, calm: bool, ops: seq<Operation>)
    requires |buf| < CAPACITY
    decreases |ops|
  {
    if ops == [] then calm
    else
      PerformBound(buf, ops[0]);
      Calm(Perform(buf, ops[0]).rest, CalmAfter(buf, calm, ops[0]), ops[1..])
  }

  lemma CalmStep(buf: seq<byte>, calm: bool, op: Operation)
    requires |buf| < CAPACITY && (calm ==> Settled(buf)) && CalmAfter(buf, calm, op)
    ensures Settled(Perform(buf, op).rest)
  {
    if op.Feed? && op.chunk != [] && op.listening {
      var kept := buf[|Resync(BufferOverflow, buf, |buf|).Octets()|..];
      ExtractSettles(buf + op.chunk);
      ExtractSettles(kept + op.chunk);
    }
  }

  /** A calm history leaves a settled buffer, so that the next overflow drops no complete frame. */
  lemma {:induction false} CalmHistoryLosesNothing(buf: seq<byte>, calm: bool, ops: seq<Operation>)
    requires |buf| < CAPACITY && (calm ==> Settled(buf)) && Calm(buf, calm, ops)
    ensures var rest := Run(buf, ops).rest;
            Settled(rest) && forall p: nat | p < |Resync(BufferOverflow, rest, |rest|).dropped| :: !FrameAt(rest, p)
    decreases |ops|
  {
    if ops == [] {
      OverflowDropsExactly(buf);
      assert buf[0..] == buf;
    } else {
      var op := ops[0];
      PerformBound(buf, op);
      if CalmAfter(buf, calm, op) {
        CalmStep(buf, calm, op);
      }
      CalmHistoryLosesNothing(Perform(buf, op).rest, CalmAfter(buf, calm, op), ops[1..]);
    }
  }

  /** Every nonempty chunk that somebody listened for was taken in. */
  predicate AllAccepted(buf: seq<byte>, ops: seq<Operation>)
    requires |buf| < CAPACITY
    decreases |ops|
  {
    ops == [] ||
    (PerformBound(buf, ops[0]);
     CalmAfter(buf, true, ops[0]) && AllAccepted(Perform(buf, ops[0]).rest, ops[1..]))
  }

  /** In particular, a history in which every such chunk was taken in is calm. */
  lemma AcceptedHistoryLosesNothing(buf: seq<byte>, ops: seq<Operation>)
    requires |buf| < CAPACITY && Settled(buf) && AllAccepted(buf, ops)
    ensures var rest := Run(buf, ops).rest;
            Settled(rest) && forall p: nat | p < |Resync(BufferOverflow, rest, |rest|).dropped| :: !FrameAt(rest, p)
  {
    AcceptedIsCalm(buf, ops);
    CalmHistoryLosesNothing(buf, true, ops);
  }

  lemma {:induction false} AcceptedIsCalm(buf: seq<byte>, ops: seq<Operation>)
    requires |buf| < CAPACITY && AllAccepted(buf, ops)
    ensures Calm(buf, true, ops)
    decreases |ops|
  {
    if ops != [] {
      PerformBound(buf, ops[0]);
      AcceptedIsCalm(Perform(buf, ops[0]).rest, ops[1..]);
    }
  }

  /** A header that waits for 4107 octets and holds the version byte only at its start. */
  const STALE_HEADER: seq<byte> := [1, 0, 0, 0, 0xFF, 0x0F, 0, 0]

  lemma StaleHeaderWaits(f: seq<byte>)
    requires |f| < 4000
    ensures |STALE_HEADER + f| == 8 + |f|
    ensures Settled(STALE_HEADER + f)
  {
    ClaimOf4107(STALE_HEADER, f);
  }

  lemma StaleHeaderSkipped(f: seq<byte>)
    requires f != [] && f[0] == PROTOCOL_VERSION
    ensures Resync(BufferOverflow, STALE_HEADER + f, |STALE_HEADER + f|) == Discard(BufferOverflow, STALE_HEADER, true)
    ensures (STALE_HEADER + f)[|STALE_HEADER|..] == f
  {
  }

  /**
   That does happen: a discarded chunk leaves without extracting, so a complete frame may wait at the head of
   the buffer, and the next chunk that does not fit drops it undelivered.
   */
  lemma OverflowLosesFrame(f: seq<byte>, c1: seq<byte>, c2: seq<byte>)
    requires Accepts(f) && |f| < 4000
    requires |c1| > CAPACITY - |f| && |c2| > CAPACITY - |f|
    ensures |STALE_HEADER + f| <= CAPACITY && |f| <= CAPACITY
    ensures Settled(STALE_HEADER + f)
    ensures FeedChunk(STALE_HEADER + f, c1) == Result([Discard(BufferOverflow, STALE_HEADER, true)], f, [])
    ensures NextStep(f) == Take(Deliver(f))
    ensures var r := FeedChunk(f, c2);
            r.steps != [] && r.steps[0].Discard? && r.steps[0].dropped != [] && r.steps[0].dropped <= f
  {
    StaleHeaderWaits(f);
    StaleHeaderSkipped(f);
    FrameFirst(f, []);
    assert f + [] == f;
  }

  // ---------------------------------------------------------------- round trip

  function Feeds(chunks: seq<seq<byte>>): (ops: seq<Operation>)
    ensures |ops| == |chunks|
  {
    seq(|chunks|, i requires 0 <= i < |chunks| => Feed(chunks[i], true))
  }

  /** Every chunk fits the space that is free when it arrives. */
  predicate AllFit(buf: seq<byte>, chunks: seq<seq<byte>>)
    requires |buf| < CAPACITY
    decreases |chunks|
  {
    chunks == [] ||
    (|buf| + |chunks[0]| <= CAPACITY && AllFit(FeedRest(buf, chunks[0]), chunks[1..]))
  }

  function FeedRest(buf: seq<byte>, chunk: seq<byte>): (rest: seq<byte>)
    requires |buf| < CAPACITY
    ensures |rest| < CAPACITY
  {
    PerformBound(buf, Feed(chunk, true));
    FeedChunk(buf, chunk).rest
  }

  lemma {:induction false} SmallChunksFit(buf: seq<byte>, chunks: seq<seq<byte>>)
    requires |buf| < CAPACITY && forall c | c in chunks :: |c| <= 1
    ensures AllFit(buf, chunks)
    decreases |chunks|
  {
    if chunks != [] {
      SmallChunksFit(FeedRest(buf, chunks[0]), chunks[1..]);
    }
  }

  /** Feeds that fit take everything in, and neither overflow nor clear the buffer. */
  lemma {:induction false} FittingFeedsAccept(buf: seq<byte>, chunks: seq<seq<byte>>)
    requires |buf| < CAPACITY && AllFit(buf, chunks)
    ensures var r := Run(buf, Feeds(chunks));
            r.accepted == Join(chunks) && NothingLost(r.steps)
    decreases |chunks|
  {
    if chunks != [] {
      RunFeeds(buf, chunks);
      FittingFeedsAccept(FeedRest(buf, chunks[0]), chunks[1..]);
      ExtractLosesNothing(buf + chunks[0]);
    }
  }

  /** So a frame in a stream that is fed in chunks that fit is never lost, whatever garbage there is around it. */
  lemma FittingFeedsMissNothing(buf: seq<byte>, chunks: seq<seq<byte>>, p: nat)
    requires |buf| < CAPACITY && AllFit(buf, chunks)
    requires FrameAt(buf + Join(chunks), p)
    ensures var r := Run(buf, Feeds(chunks));
            p < |Octets(r.steps)| ==> Caught(r.steps, p, FrameFrom(buf + Join(chunks), p))
  {
    var r := Run(buf, Feeds(chunks));
    FittingFeedsAccept(buf, chunks);
    RunKeepsFrames(buf, Feeds(chunks));
    if p < |Octets(r.steps)| {
      KeptIsCaught(r.steps, buf + Join(chunks), p);
    }
  }

  /** However `s` is cut, extraction from the first part fails no search. */
  ghost predicate PrefixesClean(s: seq<byte>) {
    forall q | q <= s :: NoFailedSync(Extract(q).steps)
  }

  /** Feeding chunk by chunk after `z` is extracting from everything at once, if no prefix fails a search. */
  lemma {:induction false} ChunksInvisible(z: seq<byte>, chunks: seq<seq<byte>>)
    requires |Extract(z).rest| < CAPACITY && AllFit(Extract(z).rest, chunks)
    requires PrefixesClean(z + Join(chunks))
    ensures var r := Run(Extract(z).rest, Feeds(chunks));
            Then(Extract(z), Outcome(r.steps, r.rest)) == Extract(z + Join(chunks))
    decreases |chunks|
  {
    var buf := Extract(z).rest;
    if chunks == [] {
      assert z + Join(chunks) == z && Extract(z).steps + [] == Extract(z).steps;
    } else {
      var c, later := chunks[0], chunks[1..];
      var first := FeedChunk(buf, c);
      Regroup(z, c, Join(later));
      assert z <= z + Join(chunks);
      OneMoreChunk(z, c);
      ChunksInvisible(z + c, later);
      RunFeeds(buf, chunks);
      var r := Run(first.rest, Feeds(later));
      ThenAssociates(Extract(z), Outcome(first.steps, first.rest), Outcome(r.steps, r.rest));
    }
  }

  lemma RunFeeds(buf: seq<byte>, chunks: seq<seq<byte>>)
    requires |buf| < CAPACITY && chunks != []
    ensures var first := FeedChunk(buf, chunks[0]);
            && |first.rest| < CAPACITY
            && var r := Run(first.rest, Feeds(chunks[1..]));
               Run(buf, Feeds(chunks)) == Result(first.steps + r.steps, r.rest, first.accepted + r.accepted)
  {
    PerformBound(buf, Feed(chunks[0], true));
    assert Feeds(chunks)[1..] == Feeds(chunks[1..]);
  }

  lemma OneMoreChunk(z: seq<byte>, c: seq<byte>)
    requires NoFailedSync(Extract(z).steps) && |Extract(z).rest| + |c| <= CAPACITY
    ensures var first := FeedChunk(Extract(z).rest, c);
            Extract(z + c) == Then(Extract(z), Outcome(first.steps, first.rest))
  {
    if c == [] {
      assert z + c == z && Extract(z).steps + [] == Extract(z).steps;
    } else {
      CleanSplit(z, c);
    }
  }

  lemma ThenAssociates(a: Outcome, b: Outcome, c: Outcome)
    ensures Then(Then(a, b), c) == Then(a, Then(b, c))
  {
  }

  /** Any cutting of a stream of frames into chunks that fit delivers exactly those frames, in order. */
  lemma StreamRoundTrip(frames: seq<seq<byte>>, chunks: seq<seq<byte>>)
    requires Good(frames) && Join(chunks) == Join(frames) && AllFit([], chunks)
    ensures var r := Run([], Feeds(chunks));
            r.steps == Deliveries(frames) && r.rest == []
  {
    assert Extract([]) == Outcome([], []);
    assert [] + Join(chunks) == Join(frames) == Join(frames) + [];
    forall q | q <= [] + Join(chunks)
      ensures NoFailedSync(Extract(q).steps)
    {
      PrefixClean(frames, q);
    }
    ChunksInvisible([], chunks);
    StreamDelivered(frames, []);
  }

  // ---------------------------------------------------------------- from sender to receiver

  /** The payload, at most one, that a request puts on the wire. */
  function PayloadFor(request: FrameTransport.Request): seq<seq<byte>> {
    if request.Message? && |request.payload| <= MAX_FRAME_SIZE then [request.payload] else []
  }

  /** The payloads that a history of requests puts on the wire. */
  function Transmitted(requests: seq<FrameTransport.Request>): seq<seq<byte>> {
    if requests == [] then []
    else Transmitted(requests[..|requests| - 1]) + PayloadFor(requests[|requests| - 1])
  }

  function Notices(payloads: seq<seq<byte>>): seq<Event> {
    seq(|payloads|, i requires 0 <= i < |payloads| => FrameDelivered(payloads[i]))
  }

  /** A relation that holds position by position. */
  predicate Pairwise<A, B>(r: (A, B) -> bool, a: seq<A>, b: seq<B>) {
    |a| == |b| && forall i | 0 <= i < |a| :: r(a[i], b[i])
  }

  lemma PairwiseConcat<A, B>(r: (A, B) -> bool, a: seq<A>, b: seq<B>, c: seq<A>, d: seq<B>)
    requires Pairwise(r, a, b) && Pairwise(r, c, d)
    ensures Pairwise(r, a + c, b + d)
  {
  }

  /** An acceptable frame with the given payload. */
  predicate Carries(frame: seq<byte>, payload: seq<byte>) {
    Accepts(frame) && |frame| <= CAPACITY && PayloadOf(frame) == payload
  }

  lemma RequestCarries(earlier: seq<FrameTransport.Request>, request: FrameTransport.Request)
    ensures Pairwise(Carries, FrameTransport.FrameFor(earlier, request), PayloadFor(request))
  {
    if request.Message? && |request.payload| <= MAX_FRAME_SIZE {
      EncodeAccepted(FrameTransport.Allocated(FrameTransport.Consumed(earlier)), request.payload);
    }
  }

  lemma {:induction false} SentFramesCarry(requests: seq<FrameTransport.Request>)
    ensures Pairwise(Carries, FrameTransport.SentFrames(requests), Transmitted(requests))
    decreases |requests|
  {
    if requests != [] {
      var earlier, last := requests[..|requests| - 1], requests[|requests| - 1];
      SentFramesCarry(earlier);
      RequestCarries(earlier, last);
      PairwiseConcat(Carries, FrameTransport.SentFrames(earlier), Transmitted(earlier),
                     FrameTransport.FrameFor(earlier, last), PayloadFor(last));
    }
  }

  lemma {:induction false} EventsOfDeliveries(frames: seq<seq<byte>>)
    requires forall i | 0 <= i < |frames| :: |frames[i]| >= HEADER_SIZE + CRC_SIZE
    ensures var events := Events(Deliveries(frames));
            |events| == |frames| && forall i | 0 <= i < |frames| :: events[i] == FrameDelivered(PayloadOf(frames[i]))
    decreases |frames|
  {
    if frames != [] {
      var later := Deliveries(frames[1..]);
      EventsOfDeliveries(frames[1..]);
      assert Deliveries(frames)[1..] == later;
      assert Events(Deliveries(frames)) == [FrameDelivered(PayloadOf(frames[0]))] + Events(later);
      assert forall i | 1 <= i < |frames| :: frames[i] == frames[1..][i - 1];
    }
  }

  /**
   Whatever a sender is asked to send, and however the octets it writes are cut into chunks that fit, the
   receiver's callbacks see exactly the transmitted payloads, in order, with no error, and nothing is left.
   */
  lemma LinkRoundTrip(requests: seq<FrameTransport.Request>, chunks: seq<seq<byte>>)
    requires Join(chunks) == Join(FrameTransport.SentFrames(requests)) && AllFit([], chunks)
    ensures var r := Run([], Feeds(chunks));
            Events(r.steps) == Notices(Transmitted(requests)) && r.rest == []
  {
    var frames := FrameTransport.SentFrames(requests);
    SentFramesCarry(requests);
    assert forall i | 0 <= i < |frames| :: Carries(frames[i], Transmitted(requests)[i]);
    StreamRoundTrip(frames, chunks);
    EventsOfDeliveries(frames);
  }
}
