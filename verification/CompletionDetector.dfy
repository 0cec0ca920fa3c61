/**
 * The large-insertion heuristic (src/infrastructure/detection/completion-detector.ts):
 * an edit to a file-backed document that inserts five or more line breaks is taken
 * as a likely AI completion, and at most one such detection is emitted per
 * two-second cooldown. The state is the instant of the last emission.
 */
module CompletionDetector {
  import opened Wrappers
  import opened Types
  import opened Strings

  const MinLinesForAi: nat := 5
  const CooldownMs: int := 2000
  const FileScheme: string := "file"

  /** The detector's only state: when it last emitted (initially 0). */
  datatype Detector = Detector(lastEmitTimestamp: Millis)

  const InitialDetector := Detector(0)

  /**
   * One content change: the inserted text, and what `Date.now()` returns if the change is a
   * candidate and the cooldown is consulted for it.
   */
  datatype Change = Change(text: string, now: Millis)

  /** One document-change notification: the document's URI scheme and its changes in order. */
  datatype Notification = Notification(scheme: string, changes: seq<Change>)

  /** `text.split('\n').length - 1`: the number of line breaks the change inserts. */
  function InsertedLines(text: string): (n: nat)
    ensures n == CountChar(text, '\n')
  {
    SplitPieceCount(text, '\n');
    |Split(text, '\n')| - 1
  }

  /** A change large enough to count as a completion. */
  predicate IsCandidate(text: string) {
    InsertedLines(text) >= MinLinesForAi
  }

  /** `Math.ceil(charCount / 4)`: the least number of four-character tokens covering the text. */
  function TokenEstimate(charCount: nat): (t: nat)
    ensures 4 * t >= charCount
    ensures t == 0 || 4 * (t - 1) < charCount
  {
    (charCount + 3) / 4
  }

  /** The detection a completion of `charCount` characters at `now` produces. */
  function CompletionEventAt(now: Millis, charCount: nat): (e: DetectedEvent)
    ensures e.timestamp == now && e.source == CompletionEvent
    ensures e.tokenEstimate == Some(TokenEstimate(charCount))
    ensures e.modelHint.None? && e.rateLimitInfo.None?
  {
    DetectedEvent(now, CompletionEvent, None, Some(TokenEstimate(charCount)), None)
  }

  /**
   * Emits iff at least two seconds have passed since the last emission; a suppressed
   * candidate leaves the state untouched, an emission moves it to `now`.
   */
  function EmitIfCooledDown(d: Detector, charCount: nat, now: Millis): (r: (Detector, Option<DetectedEvent>))
    ensures r.1.Some? <==> now - d.lastEmitTimestamp >= CooldownMs
    ensures r.1.None? ==> r.0 == d
    ensures r.1.Some? ==> r.0.lastEmitTimestamp == now && r.1.value == CompletionEventAt(now, charCount)
  {
    if now - d.lastEmitTimestamp < CooldownMs then (d, None)
    else (Detector(now), Some(CompletionEventAt(now, charCount)))
  }

  /**
   * Each emission comes at least the cooldown after the one before it, the first at least the
   * cooldown after `last`.
   */
  ghost predicate Spaced(events: seq<DetectedEvent>, last: Millis) {
    && (|events| > 0 ==> events[0].timestamp >= last + CooldownMs)
    && (forall i :: 0 < i < |events| ==> events[i].timestamp >= events[i - 1].timestamp + CooldownMs)
  }

  /** The state after emitting `events` from `d`: the last emission's instant, or unchanged. */
  ghost predicate EndsAt(d: Detector, events: seq<DetectedEvent>, d': Detector) {
    if |events| == 0 then d' == d else d'.lastEmitTimestamp == events[|events| - 1].timestamp
  }

  lemma SpacedAppend(a: seq<DetectedEvent>, b: seq<DetectedEvent>, last: Millis, mid: Millis)
    requires Spaced(a, last) && Spaced(b, mid)
    requires |a| == 0 ==> mid == last
    requires |a| > 0 ==> mid == a[|a| - 1].timestamp
    ensures Spaced(a + b, last)
  {
    var ab := a + b;
    if |a| == 0 {
      assert ab == b;
    }
    forall i | 0 < i < |ab|
      ensures ab[i].timestamp >= ab[i - 1].timestamp + CooldownMs
    {
      if i < |a| {
        assert ab[i] == a[i] && ab[i - 1] == a[i - 1];
      } else if i == |a| {
        assert ab[i] == b[0] && ab[i - 1] == a[|a| - 1];
      } else {
        assert ab[i] == b[i - |a|] && ab[i - 1] == b[i - |a| - 1];
      }
    }
  }

  /** The change `c` is a candidate whose detection is `e`. */
  ghost predicate EmittedFor(e: DetectedEvent, c: Change) {
    IsCandidate(c.text) && e == CompletionEventAt(c.now, |c.text|)
  }

  /** Every event in `evs` is the detection of some candidate among `changes`. */
  ghost predicate FromChanges(evs: seq<DetectedEvent>, changes: seq<Change>) {
    forall e :: e in evs ==> exists c :: c in changes && EmittedFor(e, c)
  }

  /** One change on its own: the detector's next state and what it emits. */
  function StepOf(d: Detector, c: Change): (r: (Detector, seq<DetectedEvent>))
    ensures |r.1| <= 1
    ensures |r.1| == 1 <==> IsCandidate(c.text) && c.now - d.lastEmitTimestamp >= CooldownMs
    ensures |r.1| == 0 ==> r.0 == d
    ensures |r.1| == 1 ==> EmittedFor(r.1[0], c) && r.0.lastEmitTimestamp == c.now
  {
    var step := if IsCandidate(c.text) then EmitIfCooledDown(d, |c.text|, c.now) else (d, None);
    (step.0, if step.1.Some? then [step.1.value] else [])
  }

  /** The loop over a notification's changes: each change in turn, from the state the ones before it left. */
  function Fold(d: Detector, changes: seq<Change>): (Detector, seq<DetectedEvent>)
    decreases |changes|
  {
    if |changes| == 0 then (d, [])
    else
      var step := StepOf(d, changes[0]);
      var rest := Fold(step.0, changes[1..]);
      (rest.0, step.1 + rest.1)
  }

  lemma {:induction false} FoldLength(d: Detector, changes: seq<Change>)
    ensures |Fold(d, changes).1| <= |changes|
    decreases |changes|
  {
    if |changes| > 0 {
      FoldLength(StepOf(d, changes[0]).0, changes[1..]);
    }
  }

  lemma {:induction false} FoldOrigin(d: Detector, changes: seq<Change>)
    ensures FromChanges(Fold(d, changes).1, changes)
    decreases |changes|
  {
    if |changes| > 0 {
      var step := StepOf(d, changes[0]);
      FoldOrigin(step.0, changes[1..]);
      ProcessChangesOrigin(changes, step.1, Fold(step.0, changes[1..]).1);
    }
  }

  lemma ProcessChangesOrigin(changes: seq<Change>, emitted: seq<DetectedEvent>, rest: seq<DetectedEvent>)
    requires |changes| > 0 && |emitted| <= 1
    requires |emitted| == 1 ==> EmittedFor(emitted[0], changes[0])
    requires FromChanges(rest, changes[1..])
    ensures FromChanges(emitted + rest, changes)
  {
    forall e | e in emitted + rest ensures exists c :: c in changes && EmittedFor(e, c) {
      if e in emitted {
        assert changes[0] in changes;
      } else {
        var c :| c in changes[1..] && EmittedFor(e, c);
        assert c in changes;
      }
    }
  }

  lemma FromChangesAreCompletions(evs: seq<DetectedEvent>, changes: seq<Change>)
    requires FromChanges(evs, changes)
    ensures forall i :: 0 <= i < |evs| ==> evs[i].source == CompletionEvent
  {
    forall i | 0 <= i < |evs| ensures evs[i].source == CompletionEvent {
      assert evs[i] in evs;
    }
  }

  lemma {:induction false} FoldSpaced(d: Detector, changes: seq<Change>)
    ensures Spaced(Fold(d, changes).1, d.lastEmitTimestamp)
    ensures EndsAt(d, Fold(d, changes).1, Fold(d, changes).0)
    decreases |changes|
  {
    if |changes| > 0 {
      var step := StepOf(d, changes[0]);
      var rest := Fold(step.0, changes[1..]);
      FoldSpaced(step.0, changes[1..]);
      SpacedAppend(step.1, rest.1, d.lastEmitTimestamp, step.0.lastEmitTimestamp);
      var all := step.1 + rest.1;
      if |rest.1| > 0 {
        assert all[|all| - 1] == rest.1[|rest.1| - 1];
      } else if |step.1| > 0 {
        assert all == step.1;
      }
    }
  }

  lemma {:induction false} FoldQuiet(d: Detector, changes: seq<Change>)
    ensures (forall k :: 0 <= k < |changes| ==> !IsCandidate(changes[k].text)) ==> Fold(d, changes) == (d, [])
    decreases |changes|
  {
    if |changes| > 0 && forall k :: 0 <= k < |changes| ==> !IsCandidate(changes[k].text) {
      assert !IsCandidate(changes[0].text);
      assert StepOf(d, changes[0]) == (d, []);
      assert forall k :: 0 <= k < |changes| - 1 ==> changes[1..][k] == changes[k + 1];
      FoldQuiet(d, changes[1..]);
      assert [] + Fold(d, changes[1..]).1 == Fold(d, changes[1..]).1;
    }
  }

  /** Processing the changes of one notification in order. */
  function ProcessChanges(d: Detector, changes: seq<Change>): (r: (Detector, seq<DetectedEvent>))
    ensures |r.1| <= |changes|
    ensures FromChanges(r.1, changes)
    ensures forall i :: 0 <= i < |r.1| ==> r.1[i].source == CompletionEvent
    ensures Spaced(r.1, d.lastEmitTimestamp)
    ensures EndsAt(d, r.1, r.0)
    ensures (forall k :: 0 <= k < |changes| ==> !IsCandidate(changes[k].text)) ==> r == (d, [])
    ensures |changes| > 0 && IsCandidate(changes[0].text) && changes[0].now - d.lastEmitTimestamp >= CooldownMs ==>
      |r.1| > 0 && r.1[0] == CompletionEventAt(changes[0].now, |changes[0].text|)
  {
    FoldLength(d, changes);
    FoldOrigin(d, changes);
    FromChangesAreCompletions(Fold(d, changes).1, changes);
    FoldSpaced(d, changes);
    FoldQuiet(d, changes);
    Fold(d, changes)
  }

  lemma {:induction false} FoldAppend(d: Detector, a: seq<Change>, b: seq<Change>)
    ensures var p := Fold(d, a);
            var q := Fold(p.0, b);
            Fold(d, a + b) == (q.0, p.1 + q.1)
    decreases |a|
  {
    if |a| == 0 {
      assert a + b == b;
      assert Fold(d, a).1 + Fold(d, b).1 == Fold(d, b).1;
    } else {
      var step := StepOf(d, a[0]);
      assert (a + b)[0] == a[0];
      assert (a + b)[1..] == a[1..] + b;
      FoldAppend(step.0, a[1..], b);
      var p := Fold(step.0, a[1..]);
      var q := Fold(p.0, b);
      assert step.1 + (p.1 + q.1) == (step.1 + p.1) + q.1;
    }
  }

  /** Processing two runs of changes is processing the first, then the second from where it left off. */
  lemma ProcessChangesAppend(d: Detector, a: seq<Change>, b: seq<Change>)
    ensures var p := ProcessChanges(d, a);
            var q := ProcessChanges(p.0, b);
            ProcessChanges(d, a + b) == (q.0, p.1 + q.1)
  {
    FoldAppend(d, a, b);
  }

  /** The state and emissions after the first `k` changes. */
  function ProcessedUpTo(d: Detector, changes: seq<Change>, k: nat): (Detector, seq<DetectedEvent>)
    requires k <= |changes|
  {
    ProcessChanges(d, changes[..k])
  }

  /**
   * Change `k` adds exactly one emission, its own detection, if it is a candidate that comes at
   * least the cooldown after the last emission before it; otherwise it adds none.
   */
  lemma ProcessChangesStep(d: Detector, changes: seq<Change>, k: nat)
    requires k < |changes|
    ensures var pre := ProcessedUpTo(d, changes, k);
            var c := changes[k];
            ProcessedUpTo(d, changes, k + 1).1
              == pre.1 + (if IsCandidate(c.text) && c.now - pre.0.lastEmitTimestamp >= CooldownMs
                          then [CompletionEventAt(c.now, |c.text|)] else [])
  {
    var c := changes[k];
    assert changes[..k + 1] == changes[..k] + [c];
    ProcessChangesAppend(d, changes[..k], [c]);
    var pre := ProcessedUpTo(d, changes, k);
    var st := StepOf(pre.0, c);
    assert [c][1..] == [];
    assert Fold(pre.0, [c]).1 == st.1 + [];
    assert |st.1| == 1 ==> st.1 == [CompletionEventAt(c.now, |c.text|)];
  }

  /**
   * Every candidate that is cooled down with respect to the emissions before it is emitted,
   * and at the position right after them.
   */
  lemma CooledDownCandidateEmitted(d: Detector, changes: seq<Change>, k: nat)
    requires k < |changes|
    ensures var pre := ProcessedUpTo(d, changes, k);
            var c := changes[k];
            IsCandidate(c.text) && c.now - pre.0.lastEmitTimestamp >= CooldownMs ==>
              |pre.1| < |ProcessChanges(d, changes).1|
              && ProcessChanges(d, changes).1[|pre.1|] == CompletionEventAt(c.now, |c.text|)
  {
    ProcessChangesStep(d, changes, k);
    assert changes == changes[..k + 1] + changes[k + 1..];
    ProcessChangesAppend(d, changes[..k + 1], changes[k + 1..]);
  }

  /**
   * `analyzeChanges`: notifications about documents that are not files are ignored entirely;
   * otherwise every change with at least five inserted lines is a candidate.
   */
  function AnalyzeChanges(d: Detector, n: Notification): (r: (Detector, seq<DetectedEvent>))
    ensures n.scheme != FileScheme ==> r == (d, [])
    ensures n.scheme == FileScheme ==> r == ProcessChanges(d, n.changes)
  {
    if n.scheme != FileScheme then (d, []) else ProcessChanges(d, n.changes)
  }

  /**
   * A notification emits twice only if two of its clock readings are at least the cooldown
   * apart; a synchronous loop over the changes, whose readings are close together, therefore
   * emits at most once.
   */
  lemma SecondEmissionNeedsCooldownWithinNotification(d: Detector, n: Notification)
    ensures |AnalyzeChanges(d, n).1| >= 2 ==>
      exists i, j :: 0 <= i < |n.changes| && 0 <= j < |n.changes| && n.changes[j].now - n.changes[i].now >= CooldownMs
  {
    var evs := AnalyzeChanges(d, n).1;
    if |evs| >= 2 {
      assert evs[0] in evs && evs[1] in evs;
      var c0 :| c0 in n.changes && EmittedFor(evs[0], c0);
      var c1 :| c1 in n.changes && EmittedFor(evs[1], c1);
      var i, j :| 0 <= i < |n.changes| && n.changes[i] == c0 && 0 <= j < |n.changes| && n.changes[j] == c1;
      assert n.changes[j].now - n.changes[i].now >= CooldownMs;
    }
  }

  /** A run of notifications, in order; returns the final state and every emission. */
  function Run(d: Detector, ns: seq<Notification>): (r: (Detector, seq<DetectedEvent>))
    ensures Spaced(r.1, d.lastEmitTimestamp)
    ensures EndsAt(d, r.1, r.0)
    ensures forall i :: 0 <= i < |r.1| ==> r.1[i].source == CompletionEvent
    ensures |ns| > 0 ==> AnalyzeChanges(d, ns[0]).1 <= r.1
    decreases |ns|
  {
    if |ns| == 0 then (d, [])
    else
      var first := AnalyzeChanges(d, ns[0]);
      var rest := Run(first.0, ns[1..]);
      SpacedAppend(first.1, rest.1, d.lastEmitTimestamp, first.0.lastEmitTimestamp);
      (rest.0, first.1 + rest.1)
  }

  /** The same fold as `Run`, without its contract, for reasoning about how runs compose. */
  function RunFold(d: Detector, ns: seq<Notification>): (Detector, seq<DetectedEvent>)
    decreases |ns|
  {
    if |ns| == 0 then (d, [])
    else
      var first := AnalyzeChanges(d, ns[0]);
      var rest := RunFold(first.0, ns[1..]);
      (rest.0, first.1 + rest.1)
  }

  lemma {:induction false} RunIsFold(d: Detector, ns: seq<Notification>)
    ensures Run(d, ns) == RunFold(d, ns)
    decreases |ns|
  {
    if |ns| > 0 {
      RunUnfold(d, ns);
      RunIsFold(AnalyzeChanges(d, ns[0]).0, ns[1..]);
    }
  }

  lemma {:induction false} RunFoldAppend(d: Detector, a: seq<Notification>, b: seq<Notification>)
    ensures var p := RunFold(d, a);
            var q := RunFold(p.0, b);
            RunFold(d, a + b) == (q.0, p.1 + q.1)
    decreases |a|
  {
    if |a| == 0 {
      assert a + b == b;
      assert RunFold(d, a).1 + RunFold(d, b).1 == RunFold(d, b).1;
    } else {
      var first := AnalyzeChanges(d, a[0]);
      assert (a + b)[0] == a[0];
      assert (a + b)[1..] == a[1..] + b;
      RunFoldAppend(first.0, a[1..], b);
      var p := RunFold(first.0, a[1..]);
      var q := RunFold(p.0, b);
      assert first.1 + (p.1 + q.1) == (first.1 + p.1) + q.1;
    }
  }

  /** A run of two blocks of notifications is the first block's run followed by the second's. */
  lemma RunAppend(d: Detector, a: seq<Notification>, b: seq<Notification>)
    ensures var p := Run(d, a);
            var q := Run(p.0, b);
            Run(d, a + b) == (q.0, p.1 + q.1)
  {
    RunFoldAppend(d, a, b);
    RunIsFold(d, a);
    RunIsFold(d, a + b);
    RunIsFold(RunFold(d, a).0, b);
  }

  /** The fold form of `RunContainsEachNotification`. */
  lemma RunFoldContains(d: Detector, ns: seq<Notification>, k: nat)
    requires k < |ns|
    ensures var pre := RunFold(d, ns[..k]);
            var mid := AnalyzeChanges(pre.0, ns[k]).1;
            |pre.1| + |mid| <= |RunFold(d, ns).1| && RunFold(d, ns).1[|pre.1|..|pre.1| + |mid|] == mid
  {
    var pre := RunFold(d, ns[..k]);
    var rest := ns[k..];
    assert ns == ns[..k] + rest;
    RunFoldAppend(d, ns[..k], rest);
    assert rest[0] == ns[k];
    var mid := AnalyzeChanges(pre.0, ns[k]);
    assert RunFold(pre.0, rest).1 == mid.1 + RunFold(mid.0, rest[1..]).1;
    MiddleSlice(pre.1, mid.1, RunFold(mid.0, rest[1..]).1);
  }

  /**
   * What notification `k` emits, from the state the notifications before it left, appears in
   * the run's emissions right after theirs: no emission of a notification is lost.
   */
  lemma RunContainsEachNotification(d: Detector, ns: seq<Notification>, k: nat)
    requires k < |ns|
    ensures var pre := Run(d, ns[..k]).1;
            var mid := AnalyzeChanges(Run(d, ns[..k]).0, ns[k]).1;
            |pre| + |mid| <= |Run(d, ns).1| && Run(d, ns).1[|pre|..|pre| + |mid|] == mid
  {
    RunIsFold(d, ns);
    RunIsFold(d, ns[..k]);
    RunFoldContains(d, ns, k);
  }

  lemma RunUnfold(d: Detector, ns: seq<Notification>)
    requires |ns| > 0
    ensures var first := AnalyzeChanges(d, ns[0]);
            var rest := Run(first.0, ns[1..]);
            Run(d, ns) == (rest.0, first.1 + rest.1)
  {
  }

  lemma MiddleSlice<T>(x: seq<T>, y: seq<T>, z: seq<T>)
    ensures (x + (y + z))[|x|..|x| + |y|] == y
  {
  }

  /**
   * Any two emissions of a run are at least the cooldown apart, whatever the clock does
   * between notifications.
   */
  lemma {:induction false} EmissionsAtLeastCooldownApart(d: Detector, ns: seq<Notification>, i: nat, j: nat)
    requires i < j < |Run(d, ns).1|
    ensures Run(d, ns).1[j].timestamp - Run(d, ns).1[i].timestamp >= CooldownMs * (j - i)
    decreases j - i
  {
    var evs := Run(d, ns).1;
    if j > i + 1 {
      EmissionsAtLeastCooldownApart(d, ns, i, j - 1);
    }
  }
}
