/**
 What the outcome of every message says: which failures there are and how each shows, what may be begun, when the
 manager rests in Rebooting, and what a listener to the reports knows.
 */
module OtaOutcomes {
  import opened Bytes
  import opened Ota
  import opened OtaRuns

  // ---------------------------------------------------------------- failures

  /** A data message that the manager would store if the writer does. */
  predicate InTurn(s: State, turn: Turn) {
    IsData(turn) && s.status == Receiving && turn.input.index == s.received && turn.input.data != []
  }

  /** An end message for a transfer of the announced length. */
  predicate Ends(s: State, turn: Turn) {
    turn.input.EndMessage? && s.status == Receiving && s.received == s.total
  }

  predicate AdmissibleSize(turn: Turn) {
    turn.input.BeginMessage? && 0 < turn.input.size <= turn.replies.maxSize
  }

  /** Why a message fails. */
  predicate Cause(s: State, turn: Turn, m: Message) {
    var input, r := turn.input, turn.replies;
    match m
    case FirmwareTooLarge => input.BeginMessage? && !AdmissibleSize(turn)
    case EraseFailed => AdmissibleSize(turn) && !r.begin
    case UnexpectedChunkIndex =>
      IsData(turn) && s.status == Receiving && input.index != s.received && !EmptyTyped(input)
    case EmptyChunk =>
      EmptyTyped(input) || (input.RawData? && s.status == Receiving && input.index == s.received && input.data == [])
    case WriteFailed => InTurn(s, turn) && !r.write
    case ChunkCountMismatch => input.EndMessage? && s.status == Receiving && s.received != s.total
    case FinalizationFailed => Ends(s, turn) && !r.finish
    case VerificationFailed => Ends(s, turn) && r.finish && !r.verify
    case ActivationFailed => Ends(s, turn) && r.finish && r.verify && !r.activate
    case AbortedByHost => input == AbortMessage(None) && s.status != Idle
    case HostReason(text) => input == AbortMessage(Some(text)) && s.status != Idle
  }

  /** A failure shows as the last report, after which the manager is Idle. */
  predicate ShowsFailure(e: Effect, m: Message) {
    && e.state.status == Idle
    && e.reports != []
    && e.reports[|e.reports| - 1] == Report(Status.Error, e.state.received, e.state.total, Some(m))
    && forall i | 0 <= i < |e.reports| - 1 :: e.reports[i].message == None && e.reports[i].status != Status.Error
  }

  /** The writer is aborted last. */
  predicate AbortsLast(calls: seq<Call>) {
    calls != [] && calls[|calls| - 1] == Abort
  }

  lemma CauseShows(s: State, turn: Turn, m: Message)
    requires Cause(s, turn, m)
    ensures ShowsFailure(Handle(s, turn.input, turn.replies), m)
  {
  }

  lemma CauseAborts(s: State, turn: Turn, m: Message)
    requires Cause(s, turn, m)
    ensures var calls := Handle(s, turn.input, turn.replies).calls;
            if m == FirmwareTooLarge then calls == if s.status != Idle then [Abort] else [] else AbortsLast(calls)
  {
  }

  /** A report that names a cause is a failure with that cause. */
  lemma NamedCauseHolds(s: State, turn: Turn, r: Report)
    requires r in Handle(s, turn.input, turn.replies).reports
    ensures r.message.Some? ==> Cause(s, turn, r.message.value)
    ensures r.status == Status.Error <==> r.message.Some?
  {
  }

  /**
   Failures, exactly: a message is reported as failed for a cause if and only if that cause holds.  The failure is
   then the last report, the only one with a cause, and the manager is Idle; the writer was aborted last, except that
   an inadmissible size aborts at most the session that was under way.
   */
  lemma FailuresExactly(s: State, turn: Turn, m: Message)
    ensures var e := Handle(s, turn.input, turn.replies);
            && ((exists r | r in e.reports :: r.message == Some(m)) <==> Cause(s, turn, m))
            && (Cause(s, turn, m) ==>
                  && ShowsFailure(e, m)
                  && if m == FirmwareTooLarge then e.calls == if s.status != Idle then [Abort] else []
                     else AbortsLast(e.calls))
  {
    var e := Handle(s, turn.input, turn.replies);
    if Cause(s, turn, m) {
      CauseShows(s, turn, m);
      CauseAborts(s, turn, m);
      assert e.reports[|e.reports| - 1] in e.reports;
    }
    forall r | r in e.reports && r.message == Some(m)
      ensures Cause(s, turn, m)
    {
      NamedCauseHolds(s, turn, r);
    }
  }

  /** The state after a failure. */
  lemma StateAfterFailure(s: State, turn: Turn, m: Message)
    requires Cause(s, turn, m)
    ensures Handle(s, turn.input, turn.replies).state
         == if m == FirmwareTooLarge then (if s.status != Idle then State(Idle, s.expectedCrc, 0, 0) else s)
            else if m == EraseFailed then State(Idle, turn.input.crc, turn.input.total, 0)
            else State(Idle, s.expectedCrc, s.total, s.received)
  {
  }

  /** A message that fails for no cause starts a session, stores a chunk, ends the session, or changes nothing. */
  lemma WithoutFailure(s: State, turn: Turn)
    requires forall m :: !Cause(s, turn, m)
    ensures var e := Handle(s, turn.input, turn.replies);
            if turn.input.BeginMessage? then e.state == State(Receiving, turn.input.crc, turn.input.total, 0)
            else if InTurn(s, turn) then e.state == State(Receiving, s.expectedCrc, s.total, (s.received + 1) % 65536)
            else if Ends(s, turn) then e.state == State(Rebooting, s.expectedCrc, s.total, s.received)
            else e == Effect(s, [], [])
  {
    assert !Cause(s, turn, FirmwareTooLarge) && !Cause(s, turn, EraseFailed);
    assert !Cause(s, turn, UnexpectedChunkIndex) && !Cause(s, turn, EmptyChunk) && !Cause(s, turn, WriteFailed);
    assert !Cause(s, turn, ChunkCountMismatch) && !Cause(s, turn, FinalizationFailed);
    assert !Cause(s, turn, VerificationFailed) && !Cause(s, turn, ActivationFailed);
    assert !Cause(s, turn, AbortedByHost);
    if turn.input.AbortMessage? && turn.input.reason.Some? {
      assert !Cause(s, turn, HostReason(turn.input.reason.value));
    }
  }

  /** The counts in a report are those of the state. */
  predicate Carries(r: Report, s: State) {
    r.received == s.received && r.total == s.total
  }

  lemma BeginReportsCarry(s: State, size: uint32, crc: uint32, total: uint16, replies: Replies, r: Report)
    requires r in HandleBegin(s, size, crc, total, replies).reports
    ensures Carries(r, HandleBegin(s, size, crc, total, replies).state)
  {
  }

  lemma EndReportsCarry(s: State, replies: Replies, r: Report)
    requires r in HandleEnd(s, replies).reports
    ensures Carries(r, HandleEnd(s, replies).state)
  {
  }

  /** Every report of a message carries the counts that the message leaves. */
  lemma ReportsCarryCounts(s: State, turn: Turn, r: Report)
    requires r in Handle(s, turn.input, turn.replies).reports
    ensures Carries(r, Handle(s, turn.input, turn.replies).state)
  {
    match turn.input
    case BeginMessage(size, crc, total) => BeginReportsCarry(s, size, crc, total, turn.replies, r);
    case EndMessage => EndReportsCarry(s, turn.replies, r);
    case _ =>
  }

  // ---------------------------------------------------------------- begin and end, call by call

  /** The abort of a session that was under way. */
  function Ending(s: State): seq<Call> {
    if s.status != Idle then [Abort] else []
  }

  /** A begin message: an inadmissible size starts nothing, and any other starts the writer once. */
  lemma BeginExactly(s: State, turn: Turn)
    requires turn.input.BeginMessage?
    ensures var e := Handle(s, turn.input, turn.replies);
            var begin := Begin(turn.input.size, turn.replies.begin);
            if !AdmissibleSize(turn)
            then e.calls == Ending(s) && |e.reports| == 1 && e.reports[0].message == Some(FirmwareTooLarge)
            else if turn.replies.begin
            then e.calls == Ending(s) + [begin] && |e.reports| == 2
                 && e.reports[0].status == Preparing && e.reports[1].status == Receiving
            else e.calls == Ending(s) + [begin, Abort] && |e.reports| == 2
                 && e.reports[0].status == Preparing && e.reports[1].message == Some(EraseFailed)
  {
    var refused := Begin(turn.input.size, false);
    assert (Ending(s) + [refused]) + [Abort] == Ending(s) + [refused, Abort];
  }

  /** How many of finish, verify and activate are asked for: up to the first that is refused. */
  function AskedFor(r: Replies): nat {
    if !r.finish then 1 else if !r.verify then 2 else 3
  }

  /** The end of a complete transfer: the three operations up to the first refusal, and then the abort. */
  lemma EndExactly(s: State, turn: Turn)
    requires Ends(s, turn)
    ensures var e, r := Handle(s, turn.input, turn.replies), turn.replies;
            var operations := [Finish(r.finish), Verify(s.expectedCrc, r.verify), Activate(r.activate)];
            && e.calls == operations[..AskedFor(r)] + (if r.finish && r.verify && r.activate then [] else [Abort])
            && (r.finish <==> e.reports != [] && e.reports[0].status == Verifying)
            && (r.finish && r.verify <==>
                  |e.reports| >= 3 && e.reports[1].status == Applying && e.reports[2].status == Rebooting)
            && |e.reports| == (if !r.finish then 1 else if !r.verify then 2 else if !r.activate then 4 else 3)
  {
  }

  // ---------------------------------------------------------------- writer calls

  /** Some cause that makes the manager abort the writer. */
  ghost predicate FailsWithAbort(s: State, turn: Turn) {
    exists m :: m != FirmwareTooLarge && Cause(s, turn, m)
  }

  /** When a message makes the manager call the writer, and with what. */
  ghost predicate Explains(s: State, turn: Turn, c: Call) {
    var input, r := turn.input, turn.replies;
    match c
    case Begin(size, ok) => AdmissibleSize(turn) && size == input.size && ok == r.begin
    case Write(index, data, ok) => InTurn(s, turn) && index == input.index && data == input.data && ok == r.write
    case Finish(ok) => Ends(s, turn) && ok == r.finish
    case Verify(crc, ok) => Ends(s, turn) && r.finish && crc == s.expectedCrc && ok == r.verify
    case Activate(ok) => Ends(s, turn) && r.finish && r.verify && ok == r.activate
    case Abort => (input.BeginMessage? && s.status != Idle) || FailsWithAbort(s, turn)
  }

  lemma CallsAreExplained(s: State, turn: Turn, c: Call)
    requires c in Handle(s, turn.input, turn.replies).calls
    ensures Explains(s, turn, c)
  {
    if c == Abort && !(turn.input.BeginMessage? && s.status != Idle) {
      assert exists r :: r in Handle(s, turn.input, turn.replies).reports && r.message.Some? by {
        AbortIsReported(s, turn);
      }
      var r :| r in Handle(s, turn.input, turn.replies).reports && r.message.Some?;
      NamedCauseHolds(s, turn, r);
      CauseAborts(s, turn, r.message.value);
    }
  }

  lemma AbortIsReported(s: State, turn: Turn)
    requires Abort in Handle(s, turn.input, turn.replies).calls && !(turn.input.BeginMessage? && s.status != Idle)
    ensures exists r :: r in Handle(s, turn.input, turn.replies).reports && r.message.Some?
  {
    var input, r := turn.input, turn.replies;
    match input
    case BeginMessage(size, crc, total) => NamesFailure(HandleBegin(s, size, crc, total, r).reports);
    case RawData(index, data) => NamesFailure(HandleRawData(s, index, data, r).reports);
    case TypedData(index, data) => NamesFailure(HandleTypedData(s, index, data, r).reports);
    case EndMessage => NamesFailure(HandleEnd(s, r).reports);
    case AbortMessage(reason) => NamesFailure(HandleAbort(s, reason).reports);
  }

  lemma NamesFailure(reports: seq<Report>)
    requires reports != [] && reports[|reports| - 1].message.Some?
    ensures exists r :: r in reports && r.message.Some?
  {
  }

  lemma ExplainedAreCalled(s: State, turn: Turn, c: Call)
    requires Explains(s, turn, c)
    ensures c in Handle(s, turn.input, turn.replies).calls
  {
    if c == Abort && FailsWithAbort(s, turn) {
      var m :| m != FirmwareTooLarge && Cause(s, turn, m);
      CauseAborts(s, turn, m);
    }
  }

  /** Where a call in a run comes from. */
  lemma {:induction false} CallOrigin(turns: seq<Turn>, i: nat) returns (n: nat)
    requires i < |Run(turns).calls|
    ensures n < |turns|
    ensures Run(turns).calls[i] in Handle(Run(turns[..n]).state, turns[n].input, turns[n].replies).calls
    ensures |Run(turns[..n]).calls| <= i < |Run(turns[..n + 1]).calls|
    decreases |turns|
  {
    var last := |turns| - 1;
    LastCalls(turns, last, i);
    if i < |Run(turns[..last]).calls| {
      n := CallOrigin(turns[..last], i);
      assert turns[..last][..n] == turns[..n] && turns[..last][..n + 1] == turns[..n + 1];
    } else {
      n := last;
      assert turns[..n + 1] == turns;
    }
  }

  /**
   Every call in every run, explained: the turn that made it, and why.  In particular the writer is begun only with
   the size that a begin message gave, and only if that size is positive and within the writer's maximum.
   */
  lemma EveryCallExplained(turns: seq<Turn>, i: nat) returns (n: nat)
    requires i < |Run(turns).calls|
    ensures n < |turns| && |Run(turns[..n]).calls| <= i < |Run(turns[..n + 1]).calls|
    ensures Explains(Run(turns[..n]).state, turns[n], Run(turns).calls[i])
    ensures Run(turns).calls[i].Begin? ==>
              turns[n].input.BeginMessage? && Run(turns).calls[i].size == turns[n].input.size
              && 0 < turns[n].input.size <= turns[n].replies.maxSize
  {
    n := CallOrigin(turns, i);
    CallsAreExplained(Run(turns[..n]).state, turns[n], Run(turns).calls[i]);
  }

  // ---------------------------------------------------------------- resting in Rebooting

  lemma RebootingStep(s: State, turn: Turn)
    requires Resting(s.status)
    ensures var e := Handle(s, turn.input, turn.replies);
            e.state.status == Rebooting <==>
            if e.calls == [] then s.status == Rebooting else e.calls[|e.calls| - 1] == Activate(true)
  {
  }

  /** Over every run: the manager rests in Rebooting exactly if the writer's last call was a successful activation. */
  lemma {:induction false} RebootingExactly(turns: seq<Turn>)
    ensures var calls := Run(turns).calls;
            Run(turns).state.status == Rebooting <==> calls != [] && calls[|calls| - 1] == Activate(true)
    decreases |turns|
  {
    if turns != [] {
      var n := |turns| - 1;
      RunSplit(turns);
      RebootingExactly(turns[..n]);
      CallsInPlace(turns[..n]);
      RebootingStep(Run(turns[..n]).state, turns[n]);
    }
  }

  // ---------------------------------------------------------------- what a listener knows

  lemma ReportStep(s: State, turn: Turn)
    requires Resting(s.status)
    ensures var e := Handle(s, turn.input, turn.replies);
            if e.reports == [] then e.state.status == s.status && e.state.total == s.total
            else var r := e.reports[|e.reports| - 1];
                 && r.status == (if e.state.status == Idle then Status.Error else e.state.status)
                 && r.total == e.state.total
  {
  }

  /** Over every run, the last report tells the listener the status and the announced total. */
  lemma {:induction false} ListenerKnows(turns: seq<Turn>)
    ensures var e := Run(turns);
            if e.reports == [] then e.state.status == Idle && e.state.total == 0
            else var r := e.reports[|e.reports| - 1];
                 && r.status == (if e.state.status == Idle then Status.Error else e.state.status)
                 && r.total == e.state.total
    decreases |turns|
  {
    if turns != [] {
      var n := |turns| - 1;
      RunSplit(turns);
      ListenerKnows(turns[..n]);
      CallsInPlace(turns[..n]);
      ReportStep(Run(turns[..n]).state, turns[n]);
    }
  }

  /** The reports about stored chunks: one for each count that is the total or a multiple of fifty, and no other. */
  lemma {:induction false} ChunkReportsExactly(total: uint16, k: nat, n: nat, r: Report)
    ensures r in ChunkReports(total, k, n) <==>
            exists j :: k < j <= k + n && r == Report(Receiving, j % 65536, total, None)
                        && (j % 65536 == total || j % 65536 % 50 == 0)
    decreases n
  {
    if n > 0 {
      ChunkReportsExactly(total, k + 1, n - 1, r);
    }
  }
}
