/**
 When the cut between two chunks is invisible: extracting after the first and again after the second gives
 what extracting once from both would have given.
 */
module Chunking {
  import opened Bytes
  import opened Frame
  import opened Parser

  /** One extraction followed by another. */
  function Then(first: Outcome, second: Outcome): Outcome {
    Outcome(first.steps + second.steps, second.rest)
  }

  /** Extraction from `x`, then from what it left followed by `b`. */
  function Twice(x: seq<byte>, b: seq<byte>): Outcome {
    Then(Extract(x), Extract(Extract(x).rest + b))
  }

  predicate NoFailedSync(steps: seq<Step>) {
    forall step | step in steps :: !step.FailedSync()
  }

  /** What can be observed of an extraction: the callbacks, in order, and the buffer left behind. */
  datatype Observation = Observation(events: seq<Event>, rest: seq<byte>)

  function Observe(o: Outcome): Observation {
    Observation(Events(o.steps), o.rest)
  }

  // ---------------------------------------------------------------- the parser depends on a prefix only

  lemma ClaimExtends(x: seq<byte>, b: seq<byte>)
    requires |x| >= HEADER_SIZE
    ensures ClaimedSize(x + b) == ClaimedSize(x)
  {
    assert (x + b)[4..8] == x[4..8];
  }

  /** A step other than a failed search is taken whatever follows. */
  lemma StepExtends(x: seq<byte>, b: seq<byte>)
    requires NextStep(x).Take? && !NextStep(x).step.FailedSync()
    ensures NextStep(x + b) == NextStep(x)
  {
    ClaimExtends(x, b);
    var total := ClaimedSize(x);
    if total <= |x| {
      assert (x + b)[..total] == x[..total];
    }
    var p := SearchVersion(x, 1);
    if p < |x| {
      SearchExtends(x, b);
      assert (x + b)[..p] == x[..p];
    }
  }

  lemma SearchExtends(x: seq<byte>, b: seq<byte>)
    requires SearchVersion(x, 1) < |x|
    ensures SearchVersion(x + b, 1) == SearchVersion(x, 1)
  {
    var p, q := SearchVersion(x, 1), SearchVersion(x + b, 1);
    assert (x + b)[p] == PROTOCOL_VERSION;
  }

  lemma ThenAfter(step: Step, first: Outcome, second: Outcome)
    ensures Then(first.After(step), second) == Then(first, second).After(step)
  {
  }

  /** One step first, then the two-part extraction of the remainder. */
  lemma TwiceTake(x: seq<byte>, b: seq<byte>)
    requires NextStep(x).Take?
    ensures var step := NextStep(x).step;
            Twice(x, b) == Twice(x[|step.Octets()|..], b).After(step)
  {
    var step := NextStep(x).step;
    var first := Extract(x[|step.Octets()|..]);
    ExtractTake(x);
    ThenAfter(step, first, Extract(first.rest + b));
  }

  lemma OnceTake(x: seq<byte>, b: seq<byte>)
    requires NextStep(x).Take? && !NextStep(x).step.FailedSync()
    ensures var step := NextStep(x).step;
            Extract(x + b) == Extract(x[|step.Octets()|..] + b).After(step)
  {
    var k := |NextStep(x).step.Octets()|;
    StepExtends(x, b);
    ExtractTake(x + b);
    assert (x + b)[k..] == x[k..] + b;
  }

  lemma TwiceWait(x: seq<byte>, b: seq<byte>)
    requires Settled(x)
    ensures Twice(x, b) == Extract(x + b)
  {
  }

  /** Without a failed search in the first part, the two ways agree step by step. */
  lemma {:induction false} CleanSplit(x: seq<byte>, b: seq<byte>)
    requires NoFailedSync(Extract(x).steps)
    ensures Extract(x + b) == Twice(x, b)
    decreases |x|
  {
    if Settled(x) {
      TwiceWait(x, b);
    } else {
      var step := NextStep(x).step;
      CleanTail(x, step);
      CleanSplit(x[|step.Octets()|..], b);
      OnceTake(x, b);
      TwiceTake(x, b);
    }
  }

  lemma CleanTail(x: seq<byte>, step: Step)
    requires NextStep(x) == Take(step) && NoFailedSync(Extract(x).steps)
    ensures NoFailedSync(Extract(x[|step.Octets()|..]).steps) && !step.FailedSync()
  {
  }

  // ---------------------------------------------------------------- failed searches in the first part

  /** Every failed search follows a failed validation, never an oversized length claim. */
  predicate OnlyValidationFailures(steps: seq<Step>) {
    forall step | step in steps && step.FailedSync() :: step.error == CrcFailure
  }

  /** The only failed search is the last step, and it empties the buffer. */
  predicate EndsByEmptying(o: Outcome) {
    && |o.steps| > 0
    && NoFailedSync(o.steps[..|o.steps| - 1])
    && o.steps[|o.steps| - 1].FailedSync()
    && o.rest == []
  }

  /** When what follows the extraction `o` may as well have been there from the start. */
  predicate CutInvisible(o: Outcome, b: seq<byte>) {
    || b == []
    || NoFailedSync(o.steps)
    || (if PROTOCOL_VERSION in b then b[0] == PROTOCOL_VERSION && EndsByEmptying(o)
        else OnlyValidationFailures(o.steps))
  }

  predicate SameView(x: seq<byte>, b: seq<byte>) {
    Observe(Extract(x + b)) == Observe(Twice(x, b))
  }

  /** A step that both ways take first does not matter. */
  lemma SameStepFirst(step: Step, o: Outcome, p: Outcome)
    ensures Observe(o.After(step)) == Observe(p.After(step)) <==> Observe(o) == Observe(p)
  {
    EventsAfter(step, o);
    EventsAfter(step, p);
    var e := step.Events();
    assert (e + Events(o.steps))[|e|..] == Events(o.steps);
    assert (e + Events(p.steps))[|e|..] == Events(p.steps);
  }

  lemma EventsAfter(step: Step, o: Outcome)
    ensures Events(o.After(step).steps) == step.Events() + Events(o.steps)
  {
  }

  lemma EventsThen(o: Outcome, p: Outcome)
    ensures Events(Then(o, p).steps) == Events(o.steps) + Events(p.steps)
  {
    EventsConcat(o.steps, p.steps);
  }

  /** No version byte at all. */
  predicate Blind(s: seq<byte>) {
    PROTOCOL_VERSION !in s
  }

  lemma RestIsSuffix(x: seq<byte>)
    ensures |Extract(x).rest| <= |x| && Extract(x).rest == x[|x| - |Extract(x).rest|..]
  {
    ExtractConserves(x);
  }

  lemma EventsNonempty(x: seq<byte>)
    ensures Extract(x).steps == [] <==> Settled(x)
    ensures Events(Extract(x).steps) == [] <==> Settled(x)
  {
  }

  /** Extraction started on octets without a version byte is seen to differ from extraction after them. */
  lemma BlindPrefixVisible(w: seq<byte>, y: seq<byte>)
    requires w != [] && Blind(w) && y != [] && y[0] == PROTOCOL_VERSION
    ensures |Events(Extract(w + y).steps)| > |Events(Extract(y).steps)| || |Extract(w + y).rest| > |Extract(y).rest|
  {
    var x := w + y;
    RestIsSuffix(y);
    if !Settled(x) {
      var step := NextStep(x).step;
      assert x[0] == w[0];
      assert step.Discard?;
      SearchSkips(w, y);
      assert x[..|w|] == w && x[|w|..] == y;
      ExtractTake(x);
      EventsAfter(step, Extract(y));
    }
  }

  lemma SearchSkips(w: seq<byte>, y: seq<byte>)
    requires w != [] && Blind(w[1..]) && y != [] && y[0] == PROTOCOL_VERSION
    ensures SearchVersion(w + y, 1) == |w|
  {
    assert forall i | 1 <= i < |w| :: w[i] == w[1..][i - 1];
    assert (w + y)[|w|] == PROTOCOL_VERSION;
  }

  lemma SearchFails(w: seq<byte>)
    requires w != [] && Blind(w[1..])
    ensures SearchVersion(w, 1) == |w|
  {
  }

  lemma FailedSearchIsBlind(r: seq<byte>)
    requires NextStep(r).Take? && NextStep(r).step.FailedSync()
    ensures r != [] && Blind(r[1..])
    ensures var step := NextStep(r).step;
            step == Resync(step.error, r, |step.dropped|) && step.error in {InvalidFrameSize, CrcFailure}
  {
  }

  /** What a failing search finds once more octets have arrived. */
  lemma FailedStepRetried(r: seq<byte>, b: seq<byte>)
    requires NextStep(r).Take? && NextStep(r).step.FailedSync()
    ensures var step := NextStep(r).step;
            NextStep(r + b) == Take(Resync(step.error, r + b, if step.error == InvalidFrameSize then |r + b| else |step.dropped|))
  {
    ClaimExtends(r, b);
    var total := ClaimedSize(r);
    if total <= |r| {
      assert (r + b)[..total] == r[..total];
    }
  }

  lemma RestIsBlind(t: seq<byte>)
    requires Blind(t)
    ensures Blind(Extract(t).rest)
  {
  }

  lemma BlindConcat(a: seq<byte>, b: seq<byte>)
    ensures Blind(a + b) <==> Blind(a) && Blind(b)
  {
  }

  lemma Regroup<T>(a: seq<T>, b: seq<T>, c: seq<T>)
    ensures a + (b + c) == (a + b) + c
    ensures ((a + b) + c)[..|a + b|] == a + b && ((a + b) + c)[|a + b|..] == c
  {
  }

  lemma MoreIsVisible(first: Outcome, o: Outcome, p: Outcome)
    requires |Events(p.steps)| > |Events(o.steps)| || |p.rest| > |o.rest|
    ensures Observe(o) != Observe(Then(first, p))
  {
    EventsThen(first, p);
  }

  /** Octets left over from the first part, or garbage before the next version byte, show. */
  lemma LeftoverVisible(t: seq<byte>, head: seq<byte>, y: seq<byte>)
    requires Blind(t) && Blind(head) && y != [] && y[0] == PROTOCOL_VERSION
    requires Extract(t).rest + head != []
    ensures Observe(Extract(y)) != Observe(Twice(t, head + y))
  {
    var left := Extract(t).rest;
    RestIsBlind(t);
    BlindConcat(left, head);
    BlindPrefixVisible(left + head, y);
    Regroup(left, head, y);
    MoreIsVisible(Extract(t), Extract(y), Extract(left + (head + y)));
  }

  /** So do the reports of steps that emptied a non-empty first part. */
  lemma ReportsVisible(t: seq<byte>, y: seq<byte>)
    requires t != [] && Extract(t).rest == []
    ensures Observe(Extract(y)) != Observe(Twice(t, y))
  {
    EventsNonempty(t);
    assert [] + y == y;
    EventsThen(Extract(t), Extract(y));
  }

  /** A search that failed in `r` finds the version byte that `y` starts with. */
  lemma FailedStepFinds(r: seq<byte>, head: seq<byte>, y: seq<byte>)
    requires NextStep(r).Take? && NextStep(r).step.FailedSync()
    requires Blind(head) && y != [] && y[0] == PROTOCOL_VERSION
    ensures NextStep(r + (head + y)) == Take(Discard(NextStep(r).step.error, r + head, true))
  {
    FailedSearchIsBlind(r);
    FailedStepRetried(r, head + y);
    Regroup(r, head, y);
    assert (r + head)[1..] == r[1..] + head;
    SearchSkips(r + head, y);
  }

  lemma RemainderIsBlind(r: seq<byte>)
    requires NextStep(r).Take? && NextStep(r).step.FailedSync()
    ensures Blind(r[|NextStep(r).step.dropped|..])
  {
  }

  /** The first part fails its search, and the second part holds a version byte after `head`. */
  lemma FailureThenVersion(r: seq<byte>, head: seq<byte>, y: seq<byte>)
    requires NextStep(r).Take? && NextStep(r).step.FailedSync()
    requires Blind(head) && y != [] && y[0] == PROTOCOL_VERSION
    ensures SameView(r, head + y) <==> head == [] && |NextStep(r).step.dropped| == |r|
  {
    var step := NextStep(r).step;
    var t, found := r[|step.dropped|..], Discard(step.error, r + head, true);
    FoundFirst(r, head, y, step, found);
    TwiceTake(r, head + y);
    RemainderIsBlind(r);
    SameEventsFirst(found, step, Extract(y), Twice(t, head + y));
    ThirdPartOfFailure(t, head, y);
  }

  lemma FoundFirst(r: seq<byte>, head: seq<byte>, y: seq<byte>, step: Step, found: Step)
    requires NextStep(r) == Take(step) && step.FailedSync()
    requires Blind(head) && y != [] && y[0] == PROTOCOL_VERSION
    requires found == Discard(step.error, r + head, true)
    ensures Extract(r + (head + y)) == Extract(y).After(found)
  {
    FailedStepFinds(r, head, y);
    ExtractTake(r + (head + y));
    Regroup(r, head, y);
  }

  lemma SameEventsFirst(step: Step, other: Step, o: Outcome, p: Outcome)
    requires step.Events() == other.Events()
    ensures Observe(o.After(step)) == Observe(p.After(other)) <==> Observe(o) == Observe(p)
  {
    SameStepFirst(step, o, p);
    EventsAfter(step, p);
    EventsAfter(other, p);
  }

  lemma ThirdPartOfFailure(t: seq<byte>, head: seq<byte>, y: seq<byte>)
    requires Blind(t) && Blind(head) && y != [] && y[0] == PROTOCOL_VERSION
    ensures Observe(Extract(y)) == Observe(Twice(t, head + y)) <==> t == [] && head == []
  {
    if t == [] && head == [] {
      assert [] + y == y;
      TwiceWait([], y);
    } else if Extract(t).rest + head != [] {
      LeftoverVisible(t, head, y);
    } else {
      assert head + y == y;
      ReportsVisible(t, y);
    }
  }

  /** An oversized claim with no version byte anywhere: the second part is seen or dropped. */
  lemma OversizeThenBlind(r: seq<byte>, b: seq<byte>)
    requires NextStep(r).Take? && NextStep(r).step.FailedSync() && Blind(b) && b != []
    requires NextStep(r).step.error == InvalidFrameSize
    ensures !SameView(r, b)
  {
    var step, all := NextStep(r).step, Discard(InvalidFrameSize, r + b, false);
    FailedSearchIsBlind(r);
    FailedStepRetried(r, b);
    assert (r + b)[1..] == r[1..] + b;
    SearchFails(r + b);
    assert (r + b)[..|r + b|] == r + b;
    assert NextStep(r + b) == Take(all);
    ExtractTake(r + b);
    assert (r + b)[|r + b|..] == [] && r[|step.dropped|..] == [];
    TwiceTake(r, b);
    SameEventsFirst(all, step, Extract([]), Twice([], b));
    TwiceWait([], b);
    assert [] + b == b;
    EventsNonempty(b);
  }

  /** A failed validation with no version byte anywhere: both ways drop the same octets. */
  lemma ValidationThenBlind(r: seq<byte>, b: seq<byte>)
    requires NextStep(r).Take? && NextStep(r).step.FailedSync() && Blind(b) && b != []
    requires NextStep(r).step.error == CrcFailure
    ensures SameView(r, b) <==> SameView(r[|NextStep(r).step.dropped|..], b)
  {
    var step := NextStep(r).step;
    var t := r[|step.dropped|..];
    SameFailure(r, b, step);
    ExtractTake(r + b);
    TwiceTake(r, b);
    SameStepFirst(step, Extract(t + b), Twice(t, b));
  }

  lemma SameFailure(r: seq<byte>, b: seq<byte>, step: Step)
    requires NextStep(r) == Take(step) && step.FailedSync() && step.error == CrcFailure && Blind(b)
    ensures NextStep(r + b) == NextStep(r)
    ensures (r + b)[|step.dropped|..] == r[|step.dropped|..] + b
  {
    FailedSearchIsBlind(r);
    FailedStepRetried(r, b);
    assert (r + b)[1..] == r[1..] + b;
    SearchFails(r + b);
    assert (r + b)[..|step.dropped|] == step.dropped;
  }

  // ---------------------------------------------------------------- the exact condition

  lemma NothingFollows(x: seq<byte>)
    ensures SameView(x, [])
  {
    ExtractSettles(x);
    assert x + [] == x && Extract(x).rest + [] == Extract(x).rest;
    assert Extract(x).steps + [] == Extract(x).steps;
  }

  lemma NoFailedSyncAfter(step: Step, o: Outcome)
    ensures NoFailedSync(o.After(step).steps) <==> !step.FailedSync() && NoFailedSync(o.steps)
  {
  }

  lemma OnlyValidationFailuresAfter(step: Step, o: Outcome)
    ensures OnlyValidationFailures(o.After(step).steps) <==>
            (step.FailedSync() ==> step.error == CrcFailure) && OnlyValidationFailures(o.steps)
  {
  }

  lemma EndsByEmptyingAfter(step: Step, o: Outcome)
    ensures EndsByEmptying(o.After(step)) <==>
            if step.FailedSync() then o.steps == [] && o.rest == [] else EndsByEmptying(o)
  {
    var steps := o.After(step).steps;
    var n := |o.steps|;
    if n > 0 {
      assert steps[..n] == Outcome(o.steps[..n - 1], []).After(step).steps;
      NoFailedSyncAfter(step, Outcome(o.steps[..n - 1], []));
    }
  }

  lemma OutcomeEmpty(x: seq<byte>)
    ensures Extract(x).steps == [] && Extract(x).rest == [] <==> x == []
  {
  }

  /** First position of the version byte. */
  function VersionIndex(b: seq<byte>): (q: nat)
    requires !Blind(b)
    ensures q < |b| && b[q] == PROTOCOL_VERSION && Blind(b[..q])
    ensures q == 0 <==> b[0] == PROTOCOL_VERSION
  {
    var q := SearchVersion(b, 0);
    assert exists i :: 0 <= i < |b| && b[i] == PROTOCOL_VERSION;
    q
  }

  lemma FailureExactly(x: seq<byte>, b: seq<byte>)
    requires NextStep(x).Take? && NextStep(x).step.FailedSync() && b != []
    ensures var step := NextStep(x).step;
            var later := x[|step.dropped|..];
            SameView(x, b) <==>
            if !Blind(b) then b[0] == PROTOCOL_VERSION && Extract(later).steps == [] && Extract(later).rest == []
            else step.error == CrcFailure && SameView(later, b)
  {
    var step := NextStep(x).step;
    if !Blind(b) {
      var q := VersionIndex(b);
      assert b == b[..q] + b[q..];
      FailureThenVersion(x, b[..q], b[q..]);
      OutcomeEmpty(x[|step.dropped|..]);
    } else {
      FailedSearchIsBlind(x);
      if step.error == InvalidFrameSize {
        OversizeThenBlind(x, b);
      } else {
        ValidationThenBlind(x, b);
      }
    }
  }

  /** Exactly when a cut between two chunks changes nothing that a callback or the buffer shows. */
  lemma {:induction false} SplitExactly(x: seq<byte>, b: seq<byte>)
    ensures Observe(Extract(x + b)) == Observe(Twice(x, b)) <==> CutInvisible(Extract(x), b)
    decreases |x|
  {
    if b == [] {
      NothingFollows(x);
    } else if Settled(x) {
      TwiceWait(x, b);
    } else {
      var step := NextStep(x).step;
      var later := x[|step.Octets()|..];
      ExtractTake(x);
      NoFailedSyncAfter(step, Extract(later));
      OnlyValidationFailuresAfter(step, Extract(later));
      EndsByEmptyingAfter(step, Extract(later));
      SplitExactly(later, b);
      if step.FailedSync() {
        FailureExactly(x, b);
      } else {
        OnceTake(x, b);
        TwiceTake(x, b);
        SameStepFirst(step, Extract(later + b), Twice(later, b));
      }
    }
  }

  /** Eight octets that claim more than the capacity, without a version byte. */
  const OVERSIZED_HEADER: seq<byte> := [0xFF, 0xFF, 0xFF, 0xFF, 0xFF, 0xFF, 0xFF, 0xFF]

  lemma OversizedHeaderDropped(x: seq<byte>)
    requires |x| == HEADER_SIZE && forall i | 0 <= i < |x| :: x[i] == 0xFF
    ensures Extract(x).steps == [Discard(InvalidFrameSize, x, false)]
  {
    SearchFails(x);
    assert x[..|x|] == x && x[|x|..] == [];
    assert NextStep(x) == Take(Discard(InvalidFrameSize, x, false));
    ExtractTake(x);
  }

  /** The condition can fail: fed at once, a ninth octet is dropped, and fed later it stays. */
  lemma CutCanShow()
    ensures !CutInvisible(Extract(OVERSIZED_HEADER), [0])
    ensures Observe(Extract(OVERSIZED_HEADER + [0])) != Observe(Twice(OVERSIZED_HEADER, [0]))
  {
    OversizedHeaderDropped(OVERSIZED_HEADER);
    assert Extract(OVERSIZED_HEADER).steps[0].FailedSync();
    SplitExactly(OVERSIZED_HEADER, [0]);
  }
}
