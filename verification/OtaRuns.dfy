/**
 Whole runs of the update state machine: sessions are bracketed by begin and abort, activation happens
 exactly after a complete verified transfer, and progress is reported at fixed counts.
 */
module OtaRuns {
  import opened Bytes
  import opened Ota

  datatype Turn = Turn(input: Input, replies: Replies)

  /** A run from a state: the state reached and all calls made. */
  function RunFrom(s: State, turns: seq<Turn>): Effect
    decreases |turns|
  {
    if turns == [] then Effect(s, [], [])
    else
      var first := Handle(s, turns[0].input, turns[0].replies);
      var later := RunFrom(first.state, turns[1..]);
      Effect(later.state, first.calls + later.calls, first.reports + later.reports)
  }

  function Run(turns: seq<Turn>): Effect {
    RunFrom(INITIAL, turns)
  }

  /** One effect after another. */
  function Then(first: Effect, later: Effect): Effect {
    Effect(later.state, first.calls + later.calls, first.reports + later.reports)
  }

  lemma ThenAssociates(a: Effect, b: Effect, c: Effect)
    ensures Then(Then(a, b), c) == Then(a, Then(b, c))
  {
  }

  lemma {:induction false} RunConcat(s: State, a: seq<Turn>, b: seq<Turn>)
    ensures RunFrom(s, a + b) == Then(RunFrom(s, a), RunFrom(RunFrom(s, a).state, b))
    decreases |a|
  {
    if a == [] {
      assert a + b == b;
      var e := RunFrom(s, b);
      assert [] + e.calls == e.calls && [] + e.reports == e.reports;
    } else {
      var first := Handle(s, a[0].input, a[0].replies);
      assert (a + b)[1..] == a[1..] + b;
      RunConcat(first.state, a[1..], b);
      ThenAssociates(first, RunFrom(first.state, a[1..]), RunFrom(RunFrom(first.state, a[1..]).state, b));
    }
  }

  lemma Appended<T>(a: seq<T>, b: seq<T>, c: seq<T>)
    ensures (a + b) + c == a + (b + c)
  {
  }

  lemma RunOne(s: State, turn: Turn)
    ensures RunFrom(s, [turn]) == Handle(s, turn.input, turn.replies)
  {
  }

  lemma RunNext(turns: seq<Turn>, turn: Turn)
    ensures Run(turns + [turn]) == Then(Run(turns), Handle(Run(turns).state, turn.input, turn.replies))
  {
    RunConcat(INITIAL, turns, [turn]);
    RunOne(Run(turns).state, turn);
  }

  lemma RunSplit(turns: seq<Turn>)
    requires turns != []
    ensures var n := |turns| - 1;
            Run(turns) == Then(Run(turns[..n]), Handle(Run(turns[..n]).state, turns[n].input, turns[n].replies))
  {
    var n := |turns| - 1;
    RunNext(turns[..n], turns[n]);
    assert turns[..n] + [turns[n]] == turns;
  }

  // ---------------------------------------------------------------- bracketing

  /** The writer as seen from its calls: a session is open or not, or the calls were out of place. */
  datatype Writer = Closed | Opened | Misused

  /** Begin is in place only with no session open, and every other call except abort only with one open. */
  function Observe(w: Writer, c: Call): Writer {
    if w == Misused then Misused
    else if c.Begin? then (if w == Closed then Opened else Misused)
    else if c.Abort? then Closed
    else if w == Opened then Opened else Misused
  }

  function ObserveAll(w: Writer, calls: seq<Call>): Writer
    decreases |calls|
  {
    if calls == [] then w else ObserveAll(Observe(w, calls[0]), calls[1..])
  }

  lemma {:induction false} ObserveConcat(w: Writer, a: seq<Call>, b: seq<Call>)
    ensures ObserveAll(w, a + b) == ObserveAll(ObserveAll(w, a), b)
    decreases |a|
  {
    if a == [] {
      assert a + b == b;
    } else {
      assert (a + b)[1..] == a[1..] + b;
      ObserveConcat(Observe(w, a[0]), a[1..], b);
    }
  }

  function WriterIn(status: Status): Writer {
    if status == Idle then Closed else Opened
  }

  predicate Resting(status: Status) {
    status in {Idle, Receiving, Rebooting}
  }

  /** Aborts that found no session open. */
  function IdleAborts(w: Writer, calls: seq<Call>): nat
    decreases |calls|
  {
    if calls == [] then 0
    else Flag(calls[0].Abort? && w == Closed) + IdleAborts(Observe(w, calls[0]), calls[1..])
  }

  lemma ObserveFirst(w: Writer, c: Call, rest: seq<Call>)
    ensures ObserveAll(w, [c] + rest) == ObserveAll(Observe(w, c), rest)
    ensures IdleAborts(w, [c] + rest) == Flag(c.Abort? && w == Closed) + IdleAborts(Observe(w, c), rest)
  {
  }

  /** The observation of up to three calls, step by step. */
  lemma ObserveThree(w: Writer, a: Call, b: Call, c: Call)
    ensures ObserveAll(w, [a]) == Observe(w, a)
    ensures ObserveAll(w, [a, b]) == Observe(Observe(w, a), b)
    ensures ObserveAll(w, [a, b, c]) == Observe(Observe(Observe(w, a), b), c)
    ensures IdleAborts(w, [a]) == Flag(a.Abort? && w == Closed)
    ensures IdleAborts(w, [a, b]) == Flag(a.Abort? && w == Closed) + Flag(b.Abort? && Observe(w, a) == Closed)
    ensures IdleAborts(w, [a, b, c]) == IdleAborts(w, [a, b]) + Flag(c.Abort? && Observe(Observe(w, a), b) == Closed)
  {
    var w1 := Observe(w, a);
    ObserveTwo(w, a, b);
    ObserveTwo(w1, b, c);
    assert [a, b, c] == [a] + [b, c];
    ObserveFirst(w, a, [b, c]);
  }

  lemma ObserveTwo(w: Writer, a: Call, b: Call)
    ensures ObserveAll(w, [a]) == Observe(w, a)
    ensures ObserveAll(w, [a, b]) == Observe(Observe(w, a), b)
    ensures IdleAborts(w, [a]) == Flag(a.Abort? && w == Closed)
    ensures IdleAborts(w, [a, b]) == Flag(a.Abort? && w == Closed) + Flag(b.Abort? && Observe(w, a) == Closed)
  {
    assert [a] == [a] + [] && [b] == [b] + [] && [a, b] == [a] + [b];
    ObserveFirst(w, a, []);
    ObserveFirst(w, a, [b]);
    ObserveFirst(Observe(w, a), b, []);
  }

  lemma BeginInPlace(s: State, size: uint32, crc: uint32, total: uint16, r: Replies)
    ensures var e := HandleBegin(s, size, crc, total, r);
            && ObserveAll(WriterIn(s.status), e.calls) == WriterIn(e.state.status) && Resting(e.state.status)
            && IdleAborts(WriterIn(s.status), e.calls) == 0
  {
    var begin := Begin(size, r.begin);
    ObserveThree(WriterIn(s.status), Abort, begin, Abort);
    ObserveThree(WriterIn(s.status), begin, Abort, Abort);
    assert [Abort] + [begin] == [Abort, begin] && [Abort, begin] + [Abort] == [Abort, begin, Abort];
    assert [] + [begin] == [begin] && [begin] + [Abort] == [begin, Abort];
  }

  /** No call of the list opens or closes a session. */
  predicate WithinSession(calls: seq<Call>) {
    forall c | c in calls :: !c.Abort? && !c.Begin?
  }

  /** Calls inside a session keep it open; one abort at the end closes it. */
  lemma {:induction false} InsideSession(calls: seq<Call>)
    requires WithinSession(calls)
    ensures ObserveAll(Opened, calls) == Opened && IdleAborts(Opened, calls) == 0
    ensures ObserveAll(Opened, calls + [Abort]) == Closed && IdleAborts(Opened, calls + [Abort]) == 0
    decreases |calls|
  {
    if calls != [] {
      InsideSession(calls[1..]);
    }
    ObserveConcat(Opened, calls, [Abort]);
    IdleAbortsConcat(Opened, calls, [Abort]);
    ObserveTwo(Opened, Abort, Abort);
  }

  lemma EndInPlace(s: State, r: Replies)
    requires Resting(s.status)
    ensures var e := HandleEnd(s, r);
            && ObserveAll(WriterIn(s.status), e.calls) == WriterIn(e.state.status) && Resting(e.state.status)
            && IdleAborts(WriterIn(s.status), e.calls) == 0
  {
    var verify := Verify(s.expectedCrc, r.verify);
    InsideSession([]);
    InsideSession([Finish(false)]);
    InsideSession([Finish(true), verify]);
    InsideSession([Finish(true), verify] + [Activate(r.activate)]);
  }

  predicate EmptyTyped(input: Input) {
    input.TypedData? && input.data == []
  }

  lemma OthersInPlace(s: State, turn: Turn)
    requires Resting(s.status) && !turn.input.BeginMessage? && !turn.input.EndMessage?
    ensures var e := Handle(s, turn.input, turn.replies);
            && ObserveAll(WriterIn(s.status), e.calls) == WriterIn(e.state.status) && Resting(e.state.status)
            && IdleAborts(WriterIn(s.status), e.calls) == Flag(EmptyTyped(turn.input) && s.status == Idle)
  {
    var w := WriterIn(s.status);
    ObserveThree(w, Abort, Abort, Abort);
    assert [] + [Abort] == [Abort];
    if turn.input.RawData? || turn.input.TypedData? {
      var write := Write(turn.input.index, turn.input.data, turn.replies.write);
      ObserveThree(w, write, Abort, Abort);
      assert [write] + [Abort] == [write, Abort];
    }
  }

  lemma TurnInPlace(s: State, turn: Turn)
    requires Resting(s.status)
    ensures var e := Handle(s, turn.input, turn.replies);
            && ObserveAll(WriterIn(s.status), e.calls) == WriterIn(e.state.status) && Resting(e.state.status)
            && IdleAborts(WriterIn(s.status), e.calls) == Flag(EmptyTyped(turn.input) && s.status == Idle)
  {
    if turn.input.BeginMessage? {
      BeginInPlace(s, turn.input.size, turn.input.crc, turn.input.total, turn.replies);
    } else if turn.input.EndMessage? {
      EndInPlace(s, turn.replies);
    } else {
      OthersInPlace(s, turn);
    }
  }

  /**
   In every run, with any messages and any replies: begin is called only when no session is open in the
   writer, every write, finish, verify and activate only inside one, and between messages a session is open
   exactly when the manager rests in a state other than Idle, which then is Receiving or Rebooting.
   */
  lemma {:induction false} CallsInPlace(turns: seq<Turn>)
    ensures ObserveAll(Closed, Run(turns).calls) == WriterIn(Run(turns).state.status)
    ensures Resting(Run(turns).state.status)
    decreases |turns|
  {
    if turns != [] {
      var n := |turns| - 1;
      var e, turn := Run(turns[..n]), turns[n];
      RunSplit(turns);
      CallsInPlace(turns[..n]);
      ObserveConcat(Closed, e.calls, Handle(e.state, turn.input, turn.replies).calls);
      TurnInPlace(e.state, turn);
    }
  }

  lemma {:induction false} MisuseStays(w: Writer, calls: seq<Call>)
    requires ObserveAll(w, calls) != Misused
    ensures w != Misused
    decreases |calls|
  {
    if calls != [] {
      MisuseStays(Observe(w, calls[0]), calls[1..]);
    }
  }

  lemma {:induction false} NextBeginNeedsAbort(w: Writer, calls: seq<Call>, j: nat) returns (k: nat)
    requires w == Opened && ObserveAll(w, calls) != Misused
    requires j < |calls| && calls[j].Begin?
    ensures k < j && calls[k].Abort?
    decreases |calls|
  {
    MisuseStays(Observe(w, calls[0]), calls[1..]);
    if calls[0].Abort? {
      k := 0;
    } else {
      var k' := NextBeginNeedsAbort(Observe(w, calls[0]), calls[1..], j - 1);
      k := k' + 1;
    }
  }

  lemma {:induction false} BeginsSeparatedFrom(w: Writer, calls: seq<Call>, i: nat, j: nat) returns (k: nat)
    requires ObserveAll(w, calls) != Misused
    requires i < j < |calls| && calls[i].Begin? && calls[j].Begin?
    ensures i < k < j && calls[k].Abort?
    decreases |calls|
  {
    var w1 := Observe(w, calls[0]);
    MisuseStays(w1, calls[1..]);
    if i == 0 {
      k := NextBeginNeedsAbort(w1, calls[1..], j - 1);
    } else {
      k := BeginsSeparatedFrom(w1, calls[1..], i - 1, j - 1);
    }
    k := k + 1;
  }

  /** Two begins never come without an abort between them. */
  lemma BeginsSeparated(turns: seq<Turn>, i: nat, j: nat) returns (k: nat)
    requires i < j < |Run(turns).calls|
    requires Run(turns).calls[i].Begin? && Run(turns).calls[j].Begin?
    ensures i < k < j && Run(turns).calls[k].Abort?
  {
    CallsInPlace(turns);
    k := BeginsSeparatedFrom(Closed, Run(turns).calls, i, j);
  }

  // ---------------------------------------------------------------- counting begins and aborts

  function Begins(calls: seq<Call>): nat {
    if calls == [] then 0 else Flag(calls[0].Begin?) + Begins(calls[1..])
  }

  function Aborts(calls: seq<Call>): nat {
    if calls == [] then 0 else Flag(calls[0].Abort?) + Aborts(calls[1..])
  }

  lemma {:induction false} CountsBalance(w: Writer, calls: seq<Call>)
    requires ObserveAll(w, calls) != Misused
    ensures Flag(w == Opened) + Begins(calls) + IdleAborts(w, calls) == Aborts(calls) + Flag(ObserveAll(w, calls) == Opened)
    decreases |calls|
  {
    if calls != [] {
      MisuseStays(Observe(w, calls[0]), calls[1..]);
      MisuseStays(w, calls);
      CountsBalance(Observe(w, calls[0]), calls[1..]);
    }
  }

  lemma {:induction false} IdleAbortsConcat(w: Writer, a: seq<Call>, b: seq<Call>)
    ensures IdleAborts(w, a + b) == IdleAborts(w, a) + IdleAborts(ObserveAll(w, a), b)
    decreases |a|
  {
    if a == [] {
      assert a + b == b;
    } else {
      assert (a + b)[1..] == a[1..] + b;
      IdleAbortsConcat(Observe(w, a[0]), a[1..], b);
    }
  }

  /** Typed data messages without data that arrive in Idle. */
  function EmptyInIdle(turns: seq<Turn>): nat {
    if turns == [] then 0
    else
      var n := |turns| - 1;
      EmptyInIdle(turns[..n])
      + Flag(EmptyTyped(turns[n].input) && Run(turns[..n]).state.status == Idle)
  }

  lemma {:induction false} IdleAbortsAre(turns: seq<Turn>)
    ensures IdleAborts(Closed, Run(turns).calls) == EmptyInIdle(turns)
    decreases |turns|
  {
    if turns != [] {
      var n := |turns| - 1;
      var e, turn := Run(turns[..n]), turns[n];
      RunSplit(turns);
      IdleAbortsAre(turns[..n]);
      CallsInPlace(turns[..n]);
      IdleAbortsConcat(Closed, e.calls, Handle(e.state, turn.input, turn.replies).calls);
      TurnInPlace(e.state, turn);
    }
  }

  /**
   Session accounting: as many begins as aborts, plus one begin while a session lives.  The only aborts
   without a session come from typed data messages without data that arrive in Idle.
   */
  lemma SessionAccounting(turns: seq<Turn>)
    ensures var e := Run(turns);
            Begins(e.calls) + EmptyInIdle(turns) == Aborts(e.calls) + Flag(e.state.status != Idle)
  {
    CallsInPlace(turns);
    IdleAbortsAre(turns);
    CountsBalance(Closed, Run(turns).calls);
  }

  // ---------------------------------------------------------------- activation

  /** The writer accepts a new session. */
  predicate Starts(turn: Turn) {
    && turn.input.BeginMessage?
    && 0 < turn.input.size <= turn.replies.maxSize
    && turn.replies.begin
  }

  predicate IsData(turn: Turn) {
    turn.input.RawData? || turn.input.TypedData?
  }

  /** The write that stores a chunk. */
  function StoreCall(turn: Turn): Call
    requires IsData(turn)
  {
    Write(turn.input.index, turn.input.data, true)
  }

  /** The writer stores the chunk that is expected after `k` others. */
  predicate Stores(turn: Turn, k: nat) {
    && IsData(turn)
    && turn.input.data != []
    && turn.input.index == Wrap(k)
    && turn.replies.write
  }

  /** Turn `m` starts a session, and all turns since have stored consecutive chunks. */
  predicate SessionFrom(turns: seq<Turn>, m: nat) {
    && m < |turns|
    && Starts(turns[m])
    && forall j | m < j < |turns| :: Stores(turns[j], j - m - 1)
  }

  /** The writes that store the given chunks. */
  function Writes(turns: seq<Turn>): (calls: seq<Call>)
    requires forall i | 0 <= i < |turns| :: IsData(turns[i])
    ensures |calls| == |turns| && forall i | 0 <= i < |calls| :: calls[i] == StoreCall(turns[i])
  {
    if turns == [] then [] else [StoreCall(turns[0])] + Writes(turns[1..])
  }

  /** Whether the `n`-th stored chunk of a session is reported. */
  predicate Reported(total: uint16, n: nat) {
    Wrap(n) == total || ReportInterval(Wrap(n))
  }

  /** The report, if any, about the `n`-th stored chunk. */
  function ReportOf(total: uint16, n: nat): seq<Report> {
    if Reported(total, n) then [Report(Receiving, Wrap(n), total, None)] else []
  }

  /** The reports about the `n` chunks stored after the first `k`. */
  function ChunkReports(total: uint16, k: nat, n: nat): seq<Report>
    decreases n
  {
    if n == 0 then [] else ReportOf(total, k + 1) + ChunkReports(total, k + 1, n - 1)
  }

  lemma CountNext(k: nat)
    ensures Wrap(Wrap(k) + 1) == Wrap(k + 1)
  {
  }

  /** A stored chunk advances the count and nothing else. */
  lemma StoreEffect(crc: uint32, total: uint16, k: nat, turn: Turn)
    requires Stores(turn, k)
    ensures Handle(State(Receiving, crc, total, Wrap(k)), turn.input, turn.replies)
         == Effect(State(Receiving, crc, total, Wrap(k + 1)),
                   [StoreCall(turn)], ReportOf(total, k + 1))
  {
    CountNext(k);
  }

  /** So do any number of them: the chunks written are those received, and the reports depend on the count only. */
  lemma {:induction false} StoresEffect(crc: uint32, total: uint16, k: nat, turns: seq<Turn>)
    requires forall j | 0 <= j < |turns| :: Stores(turns[j], k + j)
    ensures forall i | 0 <= i < |turns| :: IsData(turns[i])
    ensures RunFrom(State(Receiving, crc, total, Wrap(k)), turns)
         == Effect(State(Receiving, crc, total, Wrap(k + |turns|)), Writes(turns), ChunkReports(total, k, |turns|))
    decreases |turns|
  {
    if turns != [] {
      assert Stores(turns[0], k + 0);
      StoreEffect(crc, total, k, turns[0]);
      forall j | 0 <= j < |turns| - 1
        ensures Stores(turns[1..][j], k + 1 + j)
      {
        assert Stores(turns[j + 1], k + (j + 1));
      }
      StoresEffect(crc, total, k + 1, turns[1..]);
    }
  }

  lemma StartEffect(s: State, turn: Turn)
    requires turn.input.BeginMessage?
    ensures var e := Handle(s, turn.input, turn.replies);
            && (e.state.status == Receiving <==> Starts(turn))
            && (Starts(turn) ==> e.state == State(Receiving, turn.input.crc, turn.input.total, 0)
                                 && e.calls == (if s.status != Idle then [Abort] else []) + [Begin(turn.input.size, true)])
  {
  }

  lemma OnlyStoresContinue(s: State, turn: Turn)
    requires !turn.input.BeginMessage? && Handle(s, turn.input, turn.replies).state.status == Receiving
    ensures s.status == Receiving && Stores(turn, s.received)
  {
  }

  /** The chunks of a session. */
  function Chunks(turns: seq<Turn>, m: nat): seq<Turn>
    requires m < |turns|
  {
    turns[m + 1..]
  }

  lemma ChunksStore(turns: seq<Turn>, m: nat)
    requires SessionFrom(turns, m)
    ensures var chunks := Chunks(turns, m);
            && (forall j | 0 <= j < |chunks| :: Stores(chunks[j], 0 + j))
            && turns[..m + 1] + chunks == turns
  {
  }

  /** The run up to and including the begin of a session, and the run of its chunks. */
  lemma SessionRun(turns: seq<Turn>, m: nat)
    requires SessionFrom(turns, m)
    ensures forall i | 0 <= i < |Chunks(turns, m)| :: IsData(Chunks(turns, m)[i])
    ensures var start, n := turns[m].input, |Chunks(turns, m)|;
            Run(turns) == Then(Run(turns[..m + 1]),
                               Effect(State(Receiving, start.crc, start.total, Wrap(n)),
                                      Writes(Chunks(turns, m)), ChunkReports(start.total, 0, n)))
  {
    ChunksStore(turns, m);
    SessionStart(turns, m);
    RunChunks(turns[..m + 1], Chunks(turns, m), turns[m].input.crc, turns[m].input.total);
  }

  lemma RunChunks(begun: seq<Turn>, chunks: seq<Turn>, crc: uint32, total: uint16)
    requires Run(begun).state == State(Receiving, crc, total, 0)
    requires forall j | 0 <= j < |chunks| :: Stores(chunks[j], 0 + j)
    ensures forall i | 0 <= i < |chunks| :: IsData(chunks[i])
    ensures Run(begun + chunks) == Then(Run(begun), Effect(State(Receiving, crc, total, Wrap(|chunks|)),
                                                           Writes(chunks), ChunkReports(total, 0, |chunks|)))
  {
    StoresEffect(crc, total, 0, chunks);
    RunConcat(INITIAL, begun, chunks);
  }

  lemma SessionStart(turns: seq<Turn>, m: nat)
    requires m < |turns| && Starts(turns[m])
    ensures Run(turns[..m + 1]).state == State(Receiving, turns[m].input.crc, turns[m].input.total, 0)
    ensures Run(turns[..m + 1]).calls
         == Run(turns[..m]).calls + ((if Run(turns[..m]).state.status != Idle then [Abort] else [])
                                     + [Begin(turns[m].input.size, true)])
  {
    assert turns[..m + 1] == turns[..m] + [turns[m]];
    RunNext(turns[..m], turns[m]);
    StartEffect(Run(turns[..m]).state, turns[m]);
  }

  lemma SessionLonger(turns: seq<Turn>, m: nat, turn: Turn)
    requires SessionFrom(turns, m) && Stores(turn, |turns| - m - 1)
    ensures SessionFrom(turns + [turn], m)
  {
  }

  /** Receiving is the state of a session, and of nothing else. */
  lemma {:induction false} ReceivingInSession(turns: seq<Turn>) returns (m: nat)
    requires Run(turns).state.status == Receiving
    ensures SessionFrom(turns, m)
    decreases |turns|
  {
    var n := |turns| - 1;
    RunSplit(turns);
    var s := Run(turns[..n]).state;
    if turns[n].input.BeginMessage? {
      StartEffect(s, turns[n]);
      m := n;
    } else {
      OnlyStoresContinue(s, turns[n]);
      m := ReceivingInSession(turns[..n]);
      SessionRun(turns[..n], m);
      StoresAtCount(turns[n], n - m - 1);
      SessionLonger(turns[..n], m, turns[n]);
      assert turns[..n] + [turns[n]] == turns;
    }
  }

  lemma StoresAtCount(turn: Turn, k: nat)
    requires Stores(turn, Wrap(k))
    ensures Stores(turn, k)
  {
  }

  /** All announced chunks have been stored, as far as a 16-bit count can tell. */
  predicate CompleteSession(turns: seq<Turn>, m: nat) {
    SessionFrom(turns, m) && turns[m].input.total == Wrap(|Chunks(turns, m)|)
  }

  predicate Activates(e: Effect) {
    exists c | c in e.calls :: c.Activate?
  }

  lemma EndCalls(s: State, r: Replies)
    ensures if s.status == Receiving && s.received == s.total && r.finish && r.verify
            then HandleEnd(s, r).calls
                 == [Finish(true), Verify(s.expectedCrc, true), Activate(r.activate)] + if r.activate then [] else [Abort]
            else forall c | c in HandleEnd(s, r).calls :: !c.Activate?
  {
  }

  lemma ActivatesOnlyAtEnd(s: State, turn: Turn)
    ensures Activates(Handle(s, turn.input, turn.replies)) <==>
            && turn.input.EndMessage? && turn.replies.finish && turn.replies.verify
            && s.status == Receiving && s.received == s.total
  {
    if turn.input.EndMessage? {
      EndCalls(s, turn.replies);
      var calls := HandleEnd(s, turn.replies).calls;
      assert |calls| > 2 ==> calls[2] in calls;
    } else {
      OthersNeverActivate(s, turn);
    }
  }

  lemma OthersNeverActivate(s: State, turn: Turn)
    requires !turn.input.EndMessage?
    ensures forall c | c in Handle(s, turn.input, turn.replies).calls :: !c.Activate?
  {
  }

  /**
   Activation safety and liveness: a message makes the manager activate the new image exactly when it ends a
   session in which every chunk was stored in order, as many as announced modulo 2^16, and the writer then
   finishes and verifies.
   */
  lemma ActivatesExactly(turns: seq<Turn>, turn: Turn)
    ensures Activates(Handle(Run(turns).state, turn.input, turn.replies)) <==>
            && turn.input.EndMessage? && turn.replies.finish && turn.replies.verify
            && exists m :: CompleteSession(turns, m)
  {
    ActivatesOnlyAtEnd(Run(turns).state, turn);
    if Run(turns).state.status == Receiving {
      var m := ReceivingInSession(turns);
      SessionRun(turns, m);
      assert Run(turns).state.received == Run(turns).state.total <==> CompleteSession(turns, m);
    }
    forall m | CompleteSession(turns, m)
      ensures Run(turns).state.status == Receiving && Run(turns).state.received == Run(turns).state.total
    {
      SessionRun(turns, m);
    }
  }

  /** All calls up to the last chunk of a session: what came before it, its begin, its chunks in order. */
  function SessionTrace(turns: seq<Turn>, m: nat): seq<Call>
    requires SessionFrom(turns, m)
  {
    ChunksStore(turns, m);
    (Run(turns[..m]).calls
     + ((if Run(turns[..m]).state.status != Idle then [Abort] else []) + [Begin(turns[m].input.size, true)]))
    + Writes(Chunks(turns, m))
  }

  lemma SessionCalls(turns: seq<Turn>, m: nat)
    requires SessionFrom(turns, m)
    ensures Run(turns).calls == SessionTrace(turns, m)
    ensures forall k | 0 <= k < |Chunks(turns, m)| :: Stores(Chunks(turns, m)[k], k)
  {
    SessionRun(turns, m);
    ChunksStore(turns, m);
    SessionStart(turns, m);
  }

  /** The end message that activates: the session it completes, and where among its own calls the activation is. */
  lemma ActivatingEnd(turns: seq<Turn>, turn: Turn, i: nat) returns (m: nat)
    requires var calls := Handle(Run(turns).state, turn.input, turn.replies).calls; i < |calls| && calls[i].Activate?
    ensures turn.input.EndMessage? && CompleteSession(turns, m)
    ensures Handle(Run(turns).state, turn.input, turn.replies).calls[..i + 1]
         == [Finish(true), Verify(turns[m].input.crc, true), Activate(turn.replies.activate)]
  {
    var e := Handle(Run(turns).state, turn.input, turn.replies);
    assert e.calls[i] in e.calls;
    ActivatesOnlyAtEnd(Run(turns).state, turn);
    m := ReceivingInSession(turns);
    SessionRun(turns, m);
    EndCalls(Run(turns).state, turn.replies);
  }

  /** The calls of a run that follow the first `n` turns. */
  lemma LastCalls(turns: seq<Turn>, n: nat, i: nat)
    requires |turns| == n + 1 && i < |Run(turns).calls|
    ensures var e := Run(turns[..n]);
            var calls := Handle(e.state, turns[n].input, turns[n].replies).calls;
            if i < |e.calls| then Run(turns).calls[i] == e.calls[i] && Run(turns).calls[..i + 1] == e.calls[..i + 1]
            else && i - |e.calls| < |calls| && Run(turns).calls[i] == calls[i - |e.calls|]
                 && Run(turns).calls[..i + 1] == e.calls + calls[..i - |e.calls| + 1]
  {
    RunSplit(turns);
  }

  /**
   The writer's view of every activation, wherever it is among the calls of a run: it comes right after finish and
   verify with the CRC that the begin message announced, these right after the chunks of the session in order, and
   these right after its begin, with nothing in between.
   */
  lemma {:induction false} ActivationTrace(turns: seq<Turn>, i: nat) returns (n: nat, m: nat)
    requires i < |Run(turns).calls| && Run(turns).calls[i].Activate?
    ensures n < |turns| && turns[n].input.EndMessage? && CompleteSession(turns[..n], m)
    ensures |Chunks(turns[..n], m)| < 0x1_0000 ==> |Chunks(turns[..n], m)| == turns[m].input.total
    ensures forall k | 0 <= k < |Chunks(turns[..n], m)| :: Stores(Chunks(turns[..n], m)[k], k)
    ensures Run(turns).calls[..i + 1]
         == SessionTrace(turns[..n], m)
            + [Finish(true), Verify(turns[m].input.crc, true), Activate(turns[n].replies.activate)]
    decreases |turns|
  {
    var last := |turns| - 1;
    var before := turns[..last];
    LastCalls(turns, last, i);
    if i < |Run(before).calls| {
      n, m := ActivationTrace(before, i);
      assert before[..n] == turns[..n];
    } else {
      n := last;
      m := ActivatingEnd(before, turns[n], i - |Run(before).calls|);
      SessionCalls(before, m);
    }
  }

  /** The 16-bit count has a price: 2^16 chunks too many go unnoticed. */
  lemma OverlongTransferActivates(turns: seq<Turn>, m: nat, turn: Turn)
    requires SessionFrom(turns, m) && |Chunks(turns, m)| == turns[m].input.total + 0x1_0000
    requires turn.input.EndMessage? && turn.replies.finish && turn.replies.verify
    ensures Activates(Handle(Run(turns).state, turn.input, turn.replies))
  {
    assert CompleteSession(turns, m);
    ActivatesExactly(turns, turn);
  }

  // ---------------------------------------------------------------- progress

  /** Reports per full round of the 16-bit chunk counter: every fiftieth count, zero, and the announced total. */
  function PerRound(total: uint16): nat {
    1311 + Flag(!ReportInterval(total))
  }

  function ExpectedReports(total: uint16, n: nat): nat {
    var count := Wrap(n);
    (n / 0x1_0000) * PerRound(total)
    + count / 50
    + Flag(0 < total <= count && !ReportInterval(total))
  }

  lemma ExpectedNext(total: uint16, n: nat)
    ensures ExpectedReports(total, n + 1) == ExpectedReports(total, n) + Flag(Reported(total, n + 1))
  {
    var q, count := n / 0x1_0000, Wrap(n);
    if count == 0xFFFF {
      assert (n + 1) / 0x1_0000 == q + 1 && Wrap(n + 1) == 0;
      assert (q + 1) * PerRound(total) == q * PerRound(total) + PerRound(total);
    } else {
      assert (n + 1) / 0x1_0000 == q && Wrap(n + 1) == count + 1;
    }
  }

  lemma {:induction false} ReportCountFrom(total: uint16, k: nat, n: nat)
    ensures |ChunkReports(total, k, n)| == ExpectedReports(total, k + n) - ExpectedReports(total, k)
    decreases n
  {
    if n > 0 {
      ReportCountFrom(total, k + 1, n - 1);
      ExpectedNext(total, k);
    }
  }

  /** The number of reports about the first `n` stored chunks of a session, for every `n`. */
  lemma ReportCount(total: uint16, n: nat)
    ensures |ChunkReports(total, 0, n)| == ExpectedReports(total, n)
  {
    ReportCountFrom(total, 0, n);
  }

  /** Until the counter wraps, the reported counts increase. */
  lemma {:induction false} ReportsIncrease(total: uint16, k: nat, n: nat)
    requires k + n < 0x1_0000
    ensures forall i, j | 0 <= i < j < |ChunkReports(total, k, n)| ::
              ChunkReports(total, k, n)[i].received < ChunkReports(total, k, n)[j].received
    ensures forall r | r in ChunkReports(total, k, n) :: k < r.received <= k + n
    decreases n
  {
    if n > 0 {
      ReportsIncrease(total, k + 1, n - 1);
    }
  }

  /** The progress callback sees of a session, after its begin, exactly the reports about its chunks. */
  lemma SessionReports(turns: seq<Turn>, m: nat)
    requires SessionFrom(turns, m)
    ensures var reports := ChunkReports(turns[m].input.total, 0, |Chunks(turns, m)|);
            && Run(turns).reports == Run(turns[..m + 1]).reports + reports
            && |reports| == ExpectedReports(turns[m].input.total, |Chunks(turns, m)|)
  {
    SessionRun(turns, m);
    ReportCount(turns[m].input.total, |Chunks(turns, m)|);
  }
}
