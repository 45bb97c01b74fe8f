/**
 The sending and receiving side of the link over the caller's buffers.  Callbacks are objects that record
 what they were given; their replies are arbitrary.
 */
module FrameTransport {
  import opened Bytes
  import opened Crc32
  import opened Frame

  const MAX_TOTAL_SIZE: nat := HEADER_SIZE + MAX_FRAME_SIZE + CRC_SIZE

  /** The write callback: any implementation, with a record of the octets handed to it and of its replies. */
  class WriteCallback {
    ghost var written: seq<seq<byte>>
    ghost var replies: seq<bool>

    constructor ()
      ensures written == [] && replies == []
    {
      written, replies := [], [];
    }

    method Invoke(data: array<byte>, size: nat) returns (ok: bool)
      requires size <= data.Length
      modifies this
      ensures written == old(written) + [data[..size]] && replies == old(replies) + [ok]
    {
      ok := *;
      written, replies := written + [data[..size]], replies + [ok];
    }
  }

  /** The data handler: any implementation, with a record of the payloads handed to it and of its replies. */
  class DataHandler {
    ghost var delivered: seq<seq<byte>>
    ghost var replies: seq<bool>
    // Whether every call is known to return true, as the stream processor's own handler does.
    const alwaysSucceeds: bool

    constructor (alwaysSucceeds: bool)
      ensures delivered == [] && replies == [] && this.alwaysSucceeds == alwaysSucceeds
    {
      delivered, replies := [], [];
      this.alwaysSucceeds := alwaysSucceeds;
    }

    method Invoke(data: array<byte>, from: nat, size: nat) returns (ok: bool)
      requires from + size <= data.Length
      modifies this
      ensures delivered == old(delivered) + [data[from..from + size]] && replies == old(replies) + [ok]
      ensures alwaysSucceeds ==> ok
    {
      ok := *;
      if alwaysSucceeds {
        ok := true;
      }
      delivered, replies := delivered + [data[from..from + size]], replies + [ok];
    }
  }

  // ---------------------------------------------------------------- writing a frame into a buffer

  method PutOctets(buffer: array<byte>, at: nat, s: seq<byte>)
    requires at + |s| <= buffer.Length
    modifies buffer
    ensures buffer[at..at + |s|] == s
    ensures buffer[..at] == old(buffer[..at]) && buffer[at + |s|..] == old(buffer[at + |s|..])
  {
    forall i | 0 <= i < |s| {
      buffer[at + i] := s[i];
    }
  }

  /** `memcpy` demands that the octets it reads do not overlap the payload area. */
  predicate NoOverlap(at: nat, size: nat) {
    size == 0 || at + size <= HEADER_SIZE || at >= HEADER_SIZE + size
  }

  /** The payload, if there is any, is copied behind the header. */
  method PutPayload(buffer: array<byte>, payload: array?<byte>, at: nat, size: nat)
    requires HEADER_SIZE + size <= buffer.Length
    requires payload != null ==> at + size <= payload.Length
    requires payload == buffer ==> NoOverlap(at, size)
    modifies buffer
    ensures buffer[..HEADER_SIZE] == old(buffer[..HEADER_SIZE])
    ensures buffer[HEADER_SIZE..HEADER_SIZE + size]
         == if payload == null then old(buffer[HEADER_SIZE..HEADER_SIZE + size])
            else if payload != buffer then payload[at..at + size] else old(buffer[..])[at..at + size]
    ensures buffer[HEADER_SIZE + size..] == old(buffer[HEADER_SIZE + size..])
  {
    if payload != null && size > 0 {
      PutOctets(buffer, HEADER_SIZE, payload[at..at + size]);
    }
  }

  lemma BehindHeader(header: seq<byte>, before: seq<byte>, now: seq<byte>, n: nat)
    requires |header| == HEADER_SIZE <= n <= |before| && now == header + before[HEADER_SIZE..]
    ensures now[HEADER_SIZE..n] == before[HEADER_SIZE..n] && now[n..] == before[n..]
  {
  }

  lemma TwoParts(now: seq<byte>, m: nat, n: nat)
    requires m <= n <= |now|
    ensures now[..n] == now[..m] + now[m..n]
  {
  }

  /**
   Header and payload.  Without a payload pointer the payload area keeps what the buffer held; a payload that lies in
   the buffer itself is read after the header has been written over it.
   */
  method FillBody(buffer: array<byte>, frameType: byte, sequence: uint16, payload: array?<byte>, at: nat, size: nat)
    requires size <= MAX_FRAME_SIZE && HEADER_SIZE + size <= buffer.Length
    requires payload != null ==> at + size <= payload.Length
    requires payload == buffer ==> NoOverlap(at, size)
    modifies buffer
    ensures var carried := if payload == null then old(buffer[HEADER_SIZE..HEADER_SIZE + size])
                           else if payload != buffer then payload[at..at + size]
                           else (Header(frameType, sequence, size) + old(buffer[HEADER_SIZE..]))[at..at + size];
            buffer[..HEADER_SIZE + size] == Body(frameType, sequence, carried)
    ensures buffer[HEADER_SIZE + size..] == old(buffer[HEADER_SIZE + size..])
  {
    ghost var before, header := buffer[..], Header(frameType, sequence, size);
    PutOctets(buffer, 0, Header(frameType, sequence, size));
    assert buffer[..HEADER_SIZE] == header && buffer[HEADER_SIZE..] == before[HEADER_SIZE..];
    assert buffer[..] == buffer[..HEADER_SIZE] + buffer[HEADER_SIZE..];
    BehindHeader(header, before, buffer[..], HEADER_SIZE + size);
    PutPayload(buffer, payload, at, size);
    TwoParts(buffer[..], HEADER_SIZE, HEADER_SIZE + size);
  }

  /** The octets written by `BuildFrame` and `TransmitFrame` alike. */
  method FillFrame(buffer: array<byte>, frameType: byte, sequence: uint16, payload: array?<byte>, at: nat, size: nat)
    requires size <= MAX_FRAME_SIZE
    requires HEADER_SIZE + size + CRC_SIZE <= buffer.Length
    requires payload != null ==> at + size <= payload.Length
    requires payload == buffer ==> NoOverlap(at, size)
    modifies buffer
    ensures var carried := if payload == null then old(buffer[HEADER_SIZE..HEADER_SIZE + size])
                           else if payload != buffer then payload[at..at + size]
                           else (Header(frameType, sequence, size) + old(buffer[HEADER_SIZE..]))[at..at + size];
            && buffer[..HEADER_SIZE + size + CRC_SIZE] == FrameOctets(frameType, sequence, carried)
            && buffer[HEADER_SIZE + size + CRC_SIZE..] == old(buffer[HEADER_SIZE + size + CRC_SIZE..])
  {
    var end := HEADER_SIZE + size;
    ghost var before := buffer[..];
    FillBody(buffer, frameType, sequence, payload, at, size);
    ghost var body := buffer[..end];
    assert buffer[end..][CRC_SIZE..] == before[end..][CRC_SIZE..];
    var crc := ComputeCrc32(buffer, end);
    PutOctets(buffer, end, Le32(crc));
    TwoParts(buffer[..], end, end + CRC_SIZE);
    assert buffer[..end + CRC_SIZE] == body + Le32(crc);
  }

  /** The payload may lie anywhere, also in the output buffer. */
  method BuildFrame(sequence: uint16, payload: array?<byte>, at: nat, size: nat, output: array?<byte>, capacity: nat)
    returns (total: nat)
    requires payload != null ==> at + size <= payload.Length
    requires output != null ==> capacity <= output.Length
    requires payload == output && size <= MAX_FRAME_SIZE && HEADER_SIZE + size + CRC_SIZE <= capacity ==>
               NoOverlap(at, size)
    modifies output
    ensures total == if size > 4096 || size + 12 > capacity || output == null then 0 else size + 12
    ensures total == 0 && output != null ==> output[..] == old(output[..])
    ensures total != 0 ==>
              var carried := if payload == null then old(output[8..8 + size])
                             else if payload != output then payload[at..at + size]
                             else (Header(DATA_FRAME, sequence, size) + old(output[8..]))[at..at + size];
              output[..total] == Encode(sequence, carried) && output[total..] == old(output[total..])
  {
    if size > MAX_FRAME_SIZE {
      return 0;
    }
    total := HEADER_SIZE + size + CRC_SIZE;
    if total > capacity {
      return 0;
    }
    if output == null {
      return 0;
    }
    FillFrame(output, DATA_FRAME, sequence, payload, at, size);
  }

  // ---------------------------------------------------------------- sequence numbers

  /** The sequence number after `n`: 16-bit increment, with zero skipped. */
  function Successor(n: uint16): uint16 {
    var next := (n + 1) % 0x1_0000;
    if next == 0 then 1 else next
  }

  /** The `k`-th number allocated by a transport, counted from zero. */
  function Allocated(k: nat): uint16 {
    if k == 0 then 1 else Successor(Allocated(k - 1))
  }

  lemma SuccessorSkipsZero(n: uint16)
    ensures Successor(n) == if n == 65535 then 1 else n + 1
  {
  }

  lemma CycleRemainder(v: nat, q: nat, r: nat)
    requires v == 65535 * q + r && r < 65535
    ensures v % 65535 == r
  {
  }

  lemma {:induction false} AllocatedClosedForm(k: nat)
    ensures Allocated(k) == 1 + k % 65535
  {
    if k > 0 {
      AllocatedClosedForm(k - 1);
      SuccessorSkipsZero(Allocated(k - 1));
      var q, r := (k - 1) / 65535, (k - 1) % 65535;
      if r == 65534 {
        CycleRemainder(k, q + 1, 0);
      } else {
        CycleRemainder(k, q, r + 1);
      }
    }
  }

  /** Any 65535 consecutive allocations are pairwise distinct and none is zero. */
  lemma AllocationsDistinct(i: nat, j: nat)
    requires i < j < i + 65535
    ensures Allocated(i) != Allocated(j) && Allocated(i) != 0
  {
    AllocatedClosedForm(i);
    AllocatedClosedForm(j);
    NoFullCycle(i, j);
  }

  lemma NoFullCycle(i: nat, j: nat)
    requires i < j < i + 65535
    ensures i % 65535 != j % 65535
  {
  }

  // ---------------------------------------------------------------- sending

  /** What one call of `Send` asks for: no pointer but a size, or some octets. */
  datatype Request = Invalid | Message(payload: seq<byte>)

  /** Invalid requests consume no sequence number; oversized ones do, though nothing is written. */
  function Consumed(requests: seq<Request>): nat {
    if requests == [] then 0
    else Consumed(requests[..|requests| - 1]) + (if requests[|requests| - 1].Message? then 1 else 0)
  }

  /** The frames, at most one, written for a request under a sequence number. */
  function FrameWith(sequence: uint16, request: Request): seq<seq<byte>> {
    if request.Message? && |request.payload| <= MAX_FRAME_SIZE then [Encode(sequence, request.payload)] else []
  }

  /** The same for a request that follows the given ones. */
  function FrameFor(earlier: seq<Request>, request: Request): seq<seq<byte>> {
    FrameWith(Allocated(Consumed(earlier)), request)
  }

  /** The frames handed to the write callback for a history of requests. */
  function SentFrames(requests: seq<Request>): seq<seq<byte>> {
    if requests == [] then []
    else SentFrames(requests[..|requests| - 1]) + FrameFor(requests[..|requests| - 1], requests[|requests| - 1])
  }

  lemma OneMoreRequest(earlier: seq<Request>, request: Request)
    ensures SentFrames(earlier + [request]) == SentFrames(earlier) + FrameFor(earlier, request)
    ensures var next := Allocated(Consumed(earlier));
            Allocated(Consumed(earlier + [request])) == if request.Message? then Successor(next) else next
  {
    assert (earlier + [request])[..|earlier|] == earlier;
  }

  // ---------------------------------------------------------------- the frames of a history

  /** The positions of the messages among the first `n` requests. */
  ghost function Messages(requests: seq<Request>, n: nat): set<nat>
    requires n <= |requests|
  {
    set k: nat | k < n && requests[k].Message?
  }

  lemma OneMoreMessage(requests: seq<Request>, n: nat)
    requires n < |requests|
    ensures |Messages(requests, n + 1)| == |Messages(requests, n)| + if requests[n].Message? then 1 else 0
  {
    assert Messages(requests, n + 1) == Messages(requests, n) + if requests[n].Message? then {n} else {};
  }

  /** One number per message, oversized ones included. */
  lemma {:induction false} ConsumedCounts(requests: seq<Request>)
    ensures Consumed(requests) == |set k: nat | k < |requests| && requests[k].Message?|
    decreases |requests|
  {
    assert Messages(requests, |requests|) == set k: nat | k < |requests| && requests[k].Message?;
    if requests != [] {
      var n := |requests| - 1;
      ConsumedCounts(requests[..n]);
      OneMoreMessage(requests, n);
      assert Messages(requests[..n], n) == Messages(requests, n);
    }
  }

  /** A message that fits is sent next, under the number after those of all earlier messages. */
  lemma NextSentFrame(earlier: seq<Request>, payload: seq<byte>)
    requires |payload| <= 4096
    ensures var sent := SentFrames(earlier + [Message(payload)]);
            && |sent| == |SentFrames(earlier)| + 1
            && sent[..|sent| - 1] == SentFrames(earlier)
            && Carrying(sent[|sent| - 1], 1 + Consumed(earlier) % 65535, payload)
  {
    OneMoreRequest(earlier, Message(payload));
    AllocatedClosedForm(Consumed(earlier));
    EncodeAccepted(Allocated(Consumed(earlier)), payload);
  }

  /** An acceptable frame with the given number and payload. */
  predicate Carrying(frame: seq<byte>, sequence: int, payload: seq<byte>) {
    Accepts(frame) && SequenceOf(frame) == sequence && PayloadOf(frame) == payload
  }

  /** Any other request sends nothing. */
  lemma NothingSent(earlier: seq<Request>, request: Request)
    requires request.Message? ==> |request.payload| > 4096
    ensures SentFrames(earlier + [request]) == SentFrames(earlier)
  {
    OneMoreRequest(earlier, request);
  }

  lemma SentFramesLast(requests: seq<Request>)
    requires requests != []
    ensures var n := |requests| - 1;
            var before, after := SentFrames(requests[..n]), SentFrames(requests);
            if requests[n].Message? && |requests[n].payload| <= 4096
            then |after| == |before| + 1 && after[..|before|] == before
                 && Carrying(after[|before|], 1 + Consumed(requests[..n]) % 65535, requests[n].payload)
            else after == before
  {
    var n := |requests| - 1;
    assert requests == requests[..n] + [requests[n]];
    if requests[n].Message? && |requests[n].payload| <= 4096 {
      NextSentFrame(requests[..n], requests[n].payload);
    } else {
      NothingSent(requests[..n], requests[n]);
    }
  }

  /**
   Every frame in the writer's record comes from one request: it carries that request's payload, and its number
   counts the messages before it.
   */
  lemma {:induction false} SentFrameAt(requests: seq<Request>, j: nat) returns (i: nat)
    requires j < |SentFrames(requests)|
    ensures i < |requests| && requests[i].Message? && |requests[i].payload| <= 4096
    ensures |SentFrames(requests[..i])| == j
    ensures var before := set k: nat | k < i && requests[k].Message?;
            Carrying(SentFrames(requests)[j], 1 + |before| % 65535, requests[i].payload)
    decreases |requests|
  {
    var n := |requests| - 1;
    SentFramesLast(requests);
    if j < |SentFrames(requests[..n])| {
      i := SentFrameAt(requests[..n], j);
      assert requests[..n][..i] == requests[..i];
      SameMessages(requests[..n], requests, i);
    } else {
      i := n;
      ConsumedCounts(requests[..n]);
      SameMessages(requests[..n], requests, n);
    }
  }

  lemma SameMessages(a: seq<Request>, b: seq<Request>, i: nat)
    requires i <= |a| && a <= b
    ensures (set k: nat | k < i && a[k].Message?) == (set k: nat | k < i && b[k].Message?)
  {
  }

  lemma {:induction false} SentFramesGrow(requests: seq<Request>, i: nat)
    requires i <= |requests|
    ensures SentFrames(requests[..i]) <= SentFrames(requests)
    decreases |requests|
  {
    if i == |requests| {
      assert requests[..i] == requests;
    } else {
      var n := |requests| - 1;
      SentFramesGrow(requests[..n], i);
      assert requests[..n][..i] == requests[..i];
      assert SentFrames(requests[..n]) <= SentFrames(requests);
    }
  }

  /** And every message that fits has its frame, behind those of the requests before it. */
  lemma SentFrameOf(requests: seq<Request>, i: nat)
    requires i < |requests| && requests[i].Message? && |requests[i].payload| <= 4096
    ensures var j := |SentFrames(requests[..i])|;
            j < |SentFrames(requests)|
            && Carrying(SentFrames(requests)[j], 1 + Consumed(requests[..i]) % 65535, requests[i].payload)
  {
    var upTo := requests[..i + 1];
    SentFramesGrow(requests, i + 1);
    SentFramesLast(upTo);
    assert upTo[..i] == requests[..i] && upTo[i] == requests[i];
  }

  /** Frames whose requests are fewer than 65535 messages apart have different numbers. */
  lemma SentNumbersDiffer(requests: seq<Request>, i: nat, j: nat)
    requires i < j < |requests| && requests[i].Message? && requests[j].Message?
    requires |requests[i].payload| <= 4096 && |requests[j].payload| <= 4096
    requires Consumed(requests[..j]) - Consumed(requests[..i]) < 65535
    ensures var f, g := |SentFrames(requests[..i])|, |SentFrames(requests[..j])|;
            && f < |SentFrames(requests)| && g < |SentFrames(requests)|
            && |SentFrames(requests)[f]| >= 12 && |SentFrames(requests)[g]| >= 12
            && SequenceOf(SentFrames(requests)[f]) != SequenceOf(SentFrames(requests)[g])
  {
    SentFrameOf(requests, i);
    SentFrameOf(requests, j);
    ConsumedIncreases(requests, i, j);
    NoFullCycle(Consumed(requests[..i]), Consumed(requests[..j]));
  }

  lemma {:induction false} ConsumedIncreases(requests: seq<Request>, i: nat, j: nat)
    requires i < j <= |requests| && requests[i].Message?
    ensures Consumed(requests[..i]) < Consumed(requests[..j])
    decreases j
  {
    assert requests[..j][..j - 1] == requests[..j - 1];
    if i < j - 1 {
      ConsumedIncreases(requests, i, j - 1);
    }
  }

  // ---------------------------------------------------------------- the transport

  function RequestOf(payload: array?<byte>, payloadSize: nat): Request
    requires payload != null ==> payloadSize <= payload.Length
    reads payload
  {
    if payload != null then Message(payload[..payloadSize])
    else if payloadSize > 0 then Invalid else Message([])
  }

  /** The function-level static buffers shared by all transports. */
  class TransmitBuffers {
    const ping: array<byte>
    const pong: array<byte>
    var activeBufferIndex: nat

    ghost predicate Valid()
      reads this
    {
      ping != pong && ping.Length == pong.Length == MAX_TOTAL_SIZE && activeBufferIndex < 2
    }

    constructor ()
      ensures Valid() && fresh(ping) && fresh(pong)
    {
      ping := new byte[MAX_TOTAL_SIZE](_ => 0);
      pong := new byte[MAX_TOTAL_SIZE](_ => 0);
      activeBufferIndex := 0;
    }

    /** The buffers were switched, the one in use holds the frame, and the other still holds what it held. */
    twostate predicate Holds(frame: seq<byte>)
      reads this, ping, pong
    {
      var (used, kept) := if old(activeBufferIndex) == 0 then (ping, pong) else (pong, ping);
      && activeBufferIndex == 1 - old(activeBufferIndex)
      && |frame| <= used.Length && used[..|frame|] == frame
      && kept[..] == old(kept[..])
    }
  }

  class Transport {
    const write: WriteCallback?
    const buffers: TransmitBuffers
    var nextSequence: uint16
    // The requests so far, and what the writer had been given before.
    ghost var requests: seq<Request>
    ghost const earlier: seq<seq<byte>>

    /** The next number and everything the writer was given are determined by the history of requests. */
    ghost predicate Valid()
      reads this, buffers, write
    {
      && buffers.Valid()
      && nextSequence == Allocated(Consumed(requests))
      && (write != null ==> write.written == earlier + SentFrames(requests))
    }

    constructor (write: WriteCallback?, buffers: TransmitBuffers)
      requires buffers.Valid()
      ensures Valid() && requests == []
      ensures this.write == write && this.buffers == buffers
      ensures write != null ==> earlier == write.written
    {
      this.write := write;
      this.buffers := buffers;
      nextSequence := 1;
      requests, earlier := [], if write == null then [] else write.written;
    }

    method NextSequence() returns (sequence: uint16)
      modifies `nextSequence
      ensures sequence == old(nextSequence)
      ensures nextSequence == if sequence == 65535 then 1 else sequence + 1
    {
      sequence := nextSequence;
      nextSequence := (nextSequence + 1) % 0x1_0000;
      if nextSequence == 0 {
        nextSequence := (nextSequence + 1) % 0x1_0000;
      }
    }

    method TransmitFrame(frameType: byte, sequence: uint16, payload: array?<byte>, payloadSize: nat) returns (ok: bool)
      requires buffers.Valid()
      requires payload == null ==> payloadSize == 0
      requires payload != null ==> payload != buffers.ping && payload != buffers.pong && payloadSize <= payload.Length
      modifies buffers, buffers.ping, buffers.pong, if write == null then {} else {write}
      ensures buffers.Valid()
      ensures write == null || payloadSize > 4096 ==>
                !ok && unchanged(buffers) && unchanged(buffers.ping) && unchanged(buffers.pong)
      ensures write != null && payloadSize > 4096 ==> unchanged(write)
      ensures write != null && payloadSize <= 4096 ==>
                var frame := FrameOctets(frameType, sequence, if payload == null then [] else payload[..payloadSize]);
                && write.written == old(write.written) + [frame] && write.replies == old(write.replies) + [ok]
                && buffers.Holds(frame)
    {
      if write == null {
        return false;
      }
      if payloadSize > MAX_FRAME_SIZE {
        return false;
      }
      var total := HEADER_SIZE + payloadSize + CRC_SIZE;
      var buffer := if buffers.activeBufferIndex == 0 then buffers.ping else buffers.pong;
      buffers.activeBufferIndex := (buffers.activeBufferIndex + 1) % 2;
      FillFrame(buffer, frameType, sequence, payload, 0, payloadSize);
      ok := write.Invoke(buffer, total);
    }

    /** The source's `Send`, without the bookkeeping of `Send` below. */
    method SendBytes(payload: array?<byte>, payloadSize: nat) returns (ok: bool)
      requires buffers.Valid()
      requires payload != null ==> payload != buffers.ping && payload != buffers.pong && payloadSize <= payload.Length
      modifies `nextSequence, buffers, buffers.ping, buffers.pong, if write == null then {} else {write}
      ensures buffers.Valid()
      ensures payload == null && payloadSize > 0 ==>
                !ok && nextSequence == old(nextSequence) && (write != null ==> unchanged(write))
      ensures payload != null || payloadSize == 0 ==>
                && nextSequence == (if old(nextSequence) == 65535 then 1 else old(nextSequence) + 1)
                && (write == null || payloadSize > 4096 ==> !ok && (write != null ==> unchanged(write)))
                && (write != null && payloadSize <= 4096 ==>
                      var octets := if payload == null then [] else payload[..payloadSize];
                      && write.written == old(write.written) + [Encode(old(nextSequence), octets)]
                      && write.replies == old(write.replies) + [ok])
    {
      if payload == null && payloadSize > 0 {
        return false;
      }
      var sequence := NextSequence();
      ok := TransmitFrame(DATA_FRAME, sequence, payload, payloadSize);
    }

    method Send(payload: array?<byte>, payloadSize: nat) returns (ok: bool)
      requires Valid()
      requires payload != null ==> payload != buffers.ping && payload != buffers.pong && payloadSize <= payload.Length
      modifies `nextSequence, `requests, buffers, buffers.ping, buffers.pong, if write == null then {} else {write}
      ensures Valid()
      ensures requests == old(requests) + [if payload != null then Message(payload[..payloadSize])
                                           else if payloadSize > 0 then Invalid else Message([])]
      ensures payload == null && payloadSize > 0 ==>
                !ok && nextSequence == old(nextSequence) && (write != null ==> unchanged(write))
      ensures payload != null || payloadSize == 0 ==>
                && nextSequence == (if old(nextSequence) == 65535 then 1 else old(nextSequence) + 1)
                && (write == null || payloadSize > 4096 ==> !ok && (write != null ==> unchanged(write)))
                && (write != null && payloadSize <= 4096 ==>
                      var octets := if payload == null then [] else payload[..payloadSize];
                      && write.written == old(write.written) + [Encode(old(nextSequence), octets)]
                      && write.replies == old(write.replies) + [ok])
    {
      ghost var request := RequestOf(payload, payloadSize);
      ok := SendBytes(payload, payloadSize);
      requests := requests + [request];
      Recorded(request);
    }

    /** Handling one request keeps the transport on the history of all requests. */
    twostate lemma Recorded(request: Request)
      requires old(Valid()) && buffers.Valid()
      requires nextSequence == if request.Message? then Successor(old(nextSequence)) else old(nextSequence)
      requires requests == old(requests) + [request]
      requires write != null ==> write.written == old(write.written) + FrameWith(old(nextSequence), request)
      ensures Valid()
    {
      OneMoreRequest(old(requests), request);
      if write != null {
        assert (earlier + SentFrames(old(requests))) + FrameFor(old(requests), request)
            == earlier + (SentFrames(old(requests)) + FrameFor(old(requests), request));
      }
    }
  }

  // ---------------------------------------------------------------- receiving

  /**
   One complete frame.  The handler is called at most once, with exactly the payload, and only for a
   string of octets that some sender could have printed; the result is then its reply.
   */
  method HandleIncoming(received: array?<byte>, size: nat, handler: DataHandler?) returns (ok: bool)
    requires received != null ==> size <= received.Length
    modifies if handler == null then {} else {handler}
    ensures ok ==> received != null && handler != null && Accepts(received[..size])
    ensures handler != null ==>
              if received != null && Accepts(received[..size])
              then handler.delivered == old(handler.delivered) + [PayloadOf(received[..size])]
                   && handler.replies == old(handler.replies) + [ok]
              else handler.delivered == old(handler.delivered) && handler.replies == old(handler.replies)
    ensures received != null && Accepts(received[..size]) && handler != null && handler.alwaysSucceeds ==> ok
  {
    if received == null || size < HEADER_SIZE + CRC_SIZE {
      return false;
    }
    ghost var s := received[..size];
    var version, frameType := received[0], received[1];
    var payloadSize := Num32(received[4..8]);
    assert received[4..8] == s[4..8];
    var expected := HEADER_SIZE + payloadSize + CRC_SIZE;
    if !(version == PROTOCOL_VERSION && size == expected) {
      return false;
    }
    var receivedCrc := Num32(received[expected - CRC_SIZE..expected]);
    assert received[expected - CRC_SIZE..expected] == s[|s| - CRC_SIZE..];
    var computedCrc := ComputeCrc32(received, expected - CRC_SIZE);
    assert received[..expected - CRC_SIZE] == s[..|s| - CRC_SIZE];
    if receivedCrc != computedCrc {
      return false;
    }
    if frameType != DATA_FRAME {
      return false;
    }
    if handler == null {
      return false;
    }
    assert received[HEADER_SIZE..HEADER_SIZE + payloadSize] == PayloadOf(s);
    ok := handler.Invoke(received, HEADER_SIZE, payloadSize);
  }
}
