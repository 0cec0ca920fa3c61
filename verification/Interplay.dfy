/**
 * Properties that hold only for the components together: what the tracker makes of
 * each strategy's detections, and what storage then records.
 */
module Interplay {
  import opened Wrappers
  import opened Types
  import UsageTracker
  import CompletionDetector
  import LogFileDetector
  import ManualDetector
  import StorageManager

  /** Every completion entry of the log is no later than `last`. */
  ghost predicate CompletionsNoLaterThan(log: seq<UsageEvent>, last: Millis) {
    forall i :: 0 <= i < |log| && log[i].source == CompletionEvent ==> log[i].timestamp <= last
  }

  /**
   * The completion detector's cooldown (2000 ms) is wider than the tracker's dedup window
   * (500 ms): a completion that comes a cooldown after every completion in the log is never
   * taken for a duplicate.
   */
  lemma CooledDownCompletionNotDuplicate(log: seq<UsageEvent>, last: Millis, e: DetectedEvent)
    requires CompletionsNoLaterThan(log, last)
    requires e.source == CompletionEvent && e.timestamp >= last + CompletionDetector.CooldownMs
    ensures !UsageTracker.IsDuplicate(log, e)
  {
    if UsageTracker.IsDuplicate(log, e) {
      UsageTracker.DuplicateHasWitness(log, e);
    }
  }

  /** The events a callback stored, as a sequence of zero or one. */
  function StoredOf(u: UsageTracker.Update): seq<UsageEvent> {
    if u.stored.Some? then [u.stored.value] else []
  }

  lemma HandleAppendsStored(t: UsageTracker.Tracker, d: DetectedEvent, id: string, clock: UsageTracker.Clock, settings: GlobalSettings)
    ensures var u := UsageTracker.HandleDetectedEvent(t, d, id, clock, settings);
      && u.tracker.events == t.events + StoredOf(u)
      && u.tracker.listeners == t.listeners && u.tracker.disposed == t.disposed
  {
    var u := UsageTracker.HandleDetectedEvent(t, d, id, clock, settings);
    if u.stored.Some? {
      assert u.tracker.events == u.tracker.events[..|t.events|] + [u.tracker.events[|t.events|]];
    }
  }

  /** Hands detections to the tracker one by one, the k-th with id `ids[k]`; returns what was stored. */
  function FeedEmissions(t: UsageTracker.Tracker, evs: seq<DetectedEvent>, ids: seq<string>,
                         clock: UsageTracker.Clock, settings: GlobalSettings)
    : (r: (UsageTracker.Tracker, seq<UsageEvent>))
    requires |ids| >= |evs|
    ensures r.0.events == t.events + r.1 && |r.1| <= |evs|
    ensures r.0.listeners == t.listeners && r.0.disposed == t.disposed
    decreases |evs|
  {
    if |evs| == 0 then (t, [])
    else
      var u := UsageTracker.HandleDetectedEvent(t, evs[0], ids[0], clock, settings);
      HandleAppendsStored(t, evs[0], ids[0], clock, settings);
      var stored := StoredOf(u);
      var rest := FeedEmissions(u.tracker, evs[1..], ids[1..], clock, settings);
      (rest.0, stored + rest.1)
  }

  /** The canonical records of `evs`, the k-th with id `ids[k]`. */
  function CanonicalizeAll(evs: seq<DetectedEvent>, ids: seq<string>): seq<UsageEvent>
    requires |ids| >= |evs|
    decreases |evs|
  {
    if |evs| == 0 then [] else [UsageTracker.Canonicalize(evs[0], ids[0])] + CanonicalizeAll(evs[1..], ids[1..])
  }

  /** One cooled-down completion is stored, and it becomes the latest completion in the log. */
  lemma CompletionStored(t: UsageTracker.Tracker, last: Millis, e: DetectedEvent, id: string,
                         clock: UsageTracker.Clock, settings: GlobalSettings)
    requires CompletionsNoLaterThan(t.events, last)
    requires e.source == CompletionEvent && e.timestamp >= last + CompletionDetector.CooldownMs
    ensures var u := UsageTracker.HandleDetectedEvent(t, e, id, clock, settings);
      && StoredOf(u) == [UsageTracker.Canonicalize(e, id)]
      && CompletionsNoLaterThan(u.tracker.events, e.timestamp)
  {
    CooledDownCompletionNotDuplicate(t.events, last, e);
    HandleAppendsStored(t, e, id, clock, settings);
  }

  /**
   * Completion emissions spaced by the cooldown are all stored, in order, and afterwards every
   * completion in the log is no later than the last of them.
   */
  lemma {:induction false} SpacedCompletionsAllStored(t: UsageTracker.Tracker, last: Millis, evs: seq<DetectedEvent>,
                                                      ids: seq<string>, clock: UsageTracker.Clock, settings: GlobalSettings)
    requires |ids| >= |evs|
    requires CompletionsNoLaterThan(t.events, last)
    requires CompletionDetector.Spaced(evs, last)
    requires forall i :: 0 <= i < |evs| ==> evs[i].source == CompletionEvent
    ensures var r := FeedEmissions(t, evs, ids, clock, settings);
      && r.1 == CanonicalizeAll(evs, ids)
      && CompletionsNoLaterThan(r.0.events, if |evs| == 0 then last else evs[|evs| - 1].timestamp)
    decreases |evs|
  {
    if |evs| > 0 {
      var e := evs[0];
      CompletionStored(t, last, e, ids[0], clock, settings);
      var u := UsageTracker.HandleDetectedEvent(t, e, ids[0], clock, settings);
      assert CompletionDetector.Spaced(evs[1..], e.timestamp);
      SpacedCompletionsAllStored(u.tracker, e.timestamp, evs[1..], ids[1..], clock, settings);
      if |evs| > 1 {
        assert evs[1..][|evs[1..]| - 1] == evs[|evs| - 1];
      }
    }
  }

  /** One document-change notification flowing from the completion detector into the tracker. */
  function FeedCompletion(t: UsageTracker.Tracker, det: CompletionDetector.Detector, n: CompletionDetector.Notification,
                          ids: seq<string>, clock: UsageTracker.Clock, settings: GlobalSettings)
    : (r: (UsageTracker.Tracker, CompletionDetector.Detector, seq<UsageEvent>))
    requires |ids| >= |n.changes|
  {
    var (det', evs) := CompletionDetector.AnalyzeChanges(det, n);
    var (t', stored) := FeedEmissions(t, evs, ids, clock, settings);
    (t', det', stored)
  }

  /**
   * Feeding a notification keeps every logged completion no later than the detector's last
   * emission, and every emission is stored: the tracker never drops a completion detection.
   */
  lemma FeedCompletionKeepsInvariant(t: UsageTracker.Tracker, det: CompletionDetector.Detector, n: CompletionDetector.Notification,
                                     ids: seq<string>, clock: UsageTracker.Clock, settings: GlobalSettings)
    requires |ids| >= |n.changes|
    requires CompletionsNoLaterThan(t.events, det.lastEmitTimestamp)
    ensures var (t', det', stored) := FeedCompletion(t, det, n, ids, clock, settings);
      && CompletionsNoLaterThan(t'.events, det'.lastEmitTimestamp)
      && stored == CanonicalizeAll(CompletionDetector.AnalyzeChanges(det, n).1, ids)
      && t'.events == t.events + stored
  {
    var (det', evs) := CompletionDetector.AnalyzeChanges(det, n);
    SpacedCompletionsAllStored(t, det.lastEmitTimestamp, evs, ids, clock, settings);
  }

  /**
   * Detections from the log file never carry a complete rate-limit hint, so they never
   * become a snapshot and never change the stored last known rate limit.
   */
  lemma LogFileEventsLeaveRateLimitAlone(line: string, env: LogFileDetector.LogEnv, id: string, data: PersistedUsageData)
    requires LogFileDetector.ParseLine(line, env).Some?
    ensures var e := UsageTracker.Canonicalize(LogFileDetector.ParseLine(line, env).value, id);
      && e.rateLimitSnapshot.None?
      && StorageManager.AppendEvent(data, e).lastKnownRateLimit == data.lastKnownRateLimit
  {
    var d := LogFileDetector.ParseLine(line, env).value;
    if d.rateLimitInfo.Some? {
      UsageTracker.PartialHintNoSnapshot(d, id);
    }
  }

  /** A second manual click within 500 ms of one that was recorded is dropped. */
  lemma ManualDoubleClickCollapses(log: seq<UsageEvent>, now1: Millis, now2: Millis, id: string)
    requires UsageTracker.WithinDedupWindow(now1, now2)
    ensures UsageTracker.IsDuplicate(log + [UsageTracker.Canonicalize(ManualDetector.LogEvent(now1), id)],
                                     ManualDetector.LogEvent(now2))
  {
    UsageTracker.SecondCloseSameSourceDropped(log, ManualDetector.LogEvent(now1), id, ManualDetector.LogEvent(now2));
  }

  /** Under the default settings (limit 1500, 70 % and 90 %) the status turns at 1050 and 1350 requests. */
  lemma DefaultStatusThresholds(dayCount: nat)
    ensures UsageTracker.StatusByCounts(dayCount, StorageManager.DefaultSettings) ==
      if dayCount >= 1350 then Critical else if dayCount >= 1050 then Warning else Ok
  {
  }
}
