/**
 The order in which the update manager calls the flash writer and the progress callback: a protocol over the calls
 to both, and what it says about activations.
 */
module OtaOrder {
  import opened Ota

  /** A call of the flash writer, or of the progress callback. */
  datatype Action = Asked(call: Call) | Told(report: Report)

  /** A history of actions, the latest last. */
  datatype Trace = Start | Then(before: Trace, last: Action)

  /** The writer's record after a history that started with `earlier`. */
  function CallsAfter(earlier: seq<Call>, trace: Trace): seq<Call> {
    match trace
    case Start => earlier
    case Then(before, Asked(call)) => CallsAfter(earlier, before) + [call]
    case Then(before, Told(_)) => CallsAfter(earlier, before)
  }

  function ReportsIn(trace: Trace): seq<Report> {
    match trace
    case Start => []
    case Then(before, Asked(_)) => ReportsIn(before)
    case Then(before, Told(report)) => ReportsIn(before) + [report]
  }

  /**
   How far the calls of a message have come.  `Ready` and `Stored` are the phases between messages; after a stored
   chunk a report may follow.
   */
  datatype Phase =
    | Ready | Stored | Cleared | Prepared | Begun | Finished | Checking | Verified | Applied | Activating
    | Refused | Aborted | Broken

  /** An announcement of a status, without an error. */
  predicate Announces(a: Action, status: Status) {
    a.Told? && a.report.status == status && a.report.message == None
  }

  /** A report of an error. */
  predicate Reports(a: Action) {
    a.Told? && a.report.status == Status.Error && a.report.message.Some?
  }

  function Outcome(ok: bool, next: Phase): Phase {
    if ok then next else Refused
  }

  /** What may come after what.  A refused call is followed by abort, and that by the report of an error. */
  function Next(p: Phase, a: Action): Phase {
    match p
    case Ready => FromRest(a)
    case Stored => if Announces(a, Receiving) then Ready else FromRest(a)
    case Cleared => if Announces(a, Preparing) then Prepared else if Reports(a) then Ready else Broken
    case Prepared => if a.Asked? && a.call.Begin? then Outcome(a.call.ok, Begun) else Broken
    case Begun => if Announces(a, Receiving) then Ready else Broken
    case Finished => if Announces(a, Verifying) then Checking else Broken
    case Checking => if a.Asked? && a.call.Verify? then Outcome(a.call.ok, Verified) else Broken
    case Verified => if Announces(a, Applying) then Applied else Broken
    case Applied => if Announces(a, Rebooting) then Activating else Broken
    case Activating => if a.Asked? && a.call.Activate? then Outcome(a.call.ok, Ready) else Broken
    case Refused => if a == Asked(Abort) then Aborted else Broken
    case Aborted => if Reports(a) && a.report.message.value != FirmwareTooLarge then Ready else Broken
    case Broken => Broken
  }

  /** The first call for a message. */
  function FromRest(a: Action): Phase {
    if a == Asked(Abort) then Cleared
    else if Announces(a, Preparing) then Prepared
    else if Reports(a) && a.report.message == Some(FirmwareTooLarge) then Ready
    else if a.Asked? && a.call.Write? then Outcome(a.call.ok, Stored)
    else if a.Asked? && a.call.Finish? then Outcome(a.call.ok, Finished)
    else Broken
  }

  function PhaseAfter(trace: Trace): Phase {
    if trace == Start then Ready else Next(PhaseAfter(trace.before), trace.last)
  }

  /** The only ways into some phases. */
  lemma WaysIn(trace: Trace)
    ensures match PhaseAfter(trace)
            case Prepared => trace.Then? && Announces(trace.last, Preparing)
            case Finished => trace.Then? && trace.last == Asked(Finish(true))
            case Checking => trace.Then? && Announces(trace.last, Verifying) && PhaseAfter(trace.before) == Finished
            case Verified => trace.Then? && trace.last.Asked? && trace.last.call.Verify? && trace.last.call.ok
                             && PhaseAfter(trace.before) == Checking
            case Applied => trace.Then? && Announces(trace.last, Applying) && PhaseAfter(trace.before) == Verified
            case Activating => trace.Then? && Announces(trace.last, Rebooting) && PhaseAfter(trace.before) == Applied
            case Aborted => trace.Then? && trace.last == Asked(Abort)
            case Cleared => trace.Then? && trace.last == Asked(Abort)
            case _ => true
  {
  }

  /** The history without its last `n` actions. */
  function Without(trace: Trace, n: nat): Trace {
    if n == 0 || trace == Start then trace else Without(trace.before, n - 1)
  }

  /** A prefix of an unbroken history is unbroken. */
  lemma {:induction false} PrefixUnbroken(trace: Trace, n: nat)
    requires PhaseAfter(trace) != Broken
    ensures PhaseAfter(Without(trace, n)) != Broken
    decreases n
  {
    if n > 0 && trace != Start {
      PrefixUnbroken(trace.before, n - 1);
    }
  }

  lemma VerifiedBy(trace: Trace)
    requires PhaseAfter(trace) == Verified
    ensures trace.Then? && trace.last.Asked? && trace.last.call.Verify? && trace.last.call.ok
    ensures trace.before.Then? && Announces(trace.before.last, Verifying)
    ensures trace.before.before.Then? && trace.before.before.last == Asked(Finish(true))
  {
    WaysIn(trace);
    WaysIn(trace.before);
    WaysIn(trace.before.before);
  }

  /**
   Whenever activation is asked for, the five calls directly before it were: finish, which succeeded, the announcement
   of verification, verify, which succeeded, and the announcements of applying and of rebooting.  The host is told
   about the reboot before the image is activated.
   */
  lemma ActivationAnnounced(trace: Trace)
    requires PhaseAfter(trace) != Broken
    requires trace.Then? && trace.last.Asked? && trace.last.call.Activate?
    ensures var rebooting := trace.before;
            && rebooting.Then? && Announces(rebooting.last, Rebooting)
            && var applying := rebooting.before;
            && applying.Then? && Announces(applying.last, Applying)
            && var verify := applying.before;
            && verify.Then? && verify.last.Asked? && verify.last.call.Verify? && verify.last.call.ok
            && var verifying := verify.before;
            && verifying.Then? && Announces(verifying.last, Verifying)
            && verifying.before.Then? && verifying.before.last == Asked(Finish(true))
  {
    assert PhaseAfter(trace.before) == Activating;
    WaysIn(trace.before);
    WaysIn(trace.before.before);
    VerifiedBy(trace.before.before.before);
  }

  /** The host is told about the preparation before flash is erased, and about an error only after the abort. */
  lemma CallsAnnounced(trace: Trace)
    requires PhaseAfter(trace) != Broken && trace.Then?
    ensures trace.last.Asked? && trace.last.call.Begin? ==>
              trace.before.Then? && Announces(trace.before.last, Preparing)
    ensures Reports(trace.last) && trace.last.report.message != Some(FirmwareTooLarge) ==>
              trace.before.Then? && trace.before.last == Asked(Abort)
  {
    WaysIn(trace.before);
  }
}
