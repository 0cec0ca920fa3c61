/**
 * The usage aggregator (src/core/services/usage-tracker.service.ts): it fuses
 * detected events from every registered strategy into one append-only log,
 * dropping same-source repeats inside a 500 ms window, and derives the
 * rolling-window summary that the status bar and dashboard display.
 *
 * The tracker is a value; each callback of the original becomes a function
 * from the old tracker to the new one, returning what the original hands to
 * storage and to its subscribers. The clock, local midnight, fresh ids and the
 * settings are inputs.
 */
module UsageTracker {
  import opened Wrappers
  import opened Types
  import opened EventLog

  const DedupWindowMs: int := 500

  function Abs(x: int): nat {
    if x < 0 then -x else x
  }

  /** `Math.abs(a - b) <= DEDUP_WINDOW_MS`. */
  predicate WithinDedupWindow(a: Millis, b: Millis) {
    Abs(a - b) <= DedupWindowMs
  }

  // ---------------------------------------------------------------------------
  // Deduplication
  // ---------------------------------------------------------------------------

  /** Every entry of `log[j..i]` lies within the dedup window of `ts`. */
  ghost predicate WindowFrom(log: seq<UsageEvent>, ts: Millis, j: int, i: int)
    requires 0 <= j <= i <= |log|
  {
    forall m :: j <= m < i ==> WithinDedupWindow(log[m].timestamp, ts)
  }

  /**
   * Within `log[..i]`, some entry of the maximal suffix whose entries all lie within the
   * dedup window of `ts` has source `src`.
   */
  ghost predicate SameSourceInWindowSuffix(log: seq<UsageEvent>, ts: Millis, src: DetectionSource, i: int)
    requires 0 <= i <= |log|
  {
    exists j :: 0 <= j < i && WindowFrom(log, ts, j, i) && log[j].source == src
  }

  /** The backward scan over `log[..i]`, stopping at the first entry outside the window. */
  function ScanBack(log: seq<UsageEvent>, ts: Millis, src: DetectionSource, i: nat): (dup: bool)
    requires i <= |log|
    ensures dup <==> SameSourceInWindowSuffix(log, ts, src, i)
    decreases i
  {
    if i == 0 then false
    else
      var existing := log[i - 1];
      if !WithinDedupWindow(ts, existing.timestamp) then
        assert forall j :: 0 <= j < i ==> !WindowFrom(log, ts, j, i) by {
          forall j | 0 <= j < i ensures !WindowFrom(log, ts, j, i) {
            assert !WithinDedupWindow(log[i - 1].timestamp, ts);
          }
        }
        false
      else if existing.source == src then
        assert WindowFrom(log, ts, i - 1, i);
        true
      else
        var rest := ScanBack(log, ts, src, i - 1);
        assert forall j :: 0 <= j < i - 1 ==> (WindowFrom(log, ts, j, i) <==> WindowFrom(log, ts, j, i - 1));
        rest
  }

  /**
   * An incoming event is a duplicate iff an entry with the same source lies in the maximal
   * suffix of the log whose entries are all within 500 ms of it.
   */
  function IsDuplicate(log: seq<UsageEvent>, d: DetectedEvent): (dup: bool)
    ensures dup <==> SameSourceInWindowSuffix(log, d.timestamp, d.source, |log|)
  {
    ScanBack(log, d.timestamp, d.source, |log|)
  }

  /** A duplicate always has a same-source entry within 500 ms somewhere in the log. */
  lemma DuplicateHasWitness(log: seq<UsageEvent>, d: DetectedEvent)
    requires IsDuplicate(log, d)
    ensures exists j :: 0 <= j < |log| && log[j].source == d.source
                        && WithinDedupWindow(log[j].timestamp, d.timestamp)
  {
    var j :| 0 <= j < |log| && WindowFrom(log, d.timestamp, j, |log|) && log[j].source == d.source;
    assert WithinDedupWindow(log[j].timestamp, d.timestamp);
  }

  /** Timestamps never decrease along the log. */
  ghost predicate TimeOrdered(log: seq<UsageEvent>) {
    forall i, j :: 0 <= i < j < |log| ==> log[i].timestamp <= log[j].timestamp
  }

  /** The incoming event is no earlier than anything already logged. */
  ghost predicate ArrivesInOrder(log: seq<UsageEvent>, d: DetectedEvent) {
    forall i :: 0 <= i < |log| ==> log[i].timestamp <= d.timestamp
  }

  /**
   * On a time-ordered log and an in-order arrival the early exit loses nothing: the scan
   * reports a duplicate iff ANY entry of the same source lies within 500 ms.
   */
  lemma DuplicateOnOrderedLog(log: seq<UsageEvent>, d: DetectedEvent)
    requires TimeOrdered(log)
    requires ArrivesInOrder(log, d)
    ensures IsDuplicate(log, d) <==>
      exists j :: 0 <= j < |log| && log[j].source == d.source
                  && WithinDedupWindow(log[j].timestamp, d.timestamp)
  {
    if exists j :: 0 <= j < |log| && log[j].source == d.source
                   && WithinDedupWindow(log[j].timestamp, d.timestamp) {
      var j :| 0 <= j < |log| && log[j].source == d.source
               && WithinDedupWindow(log[j].timestamp, d.timestamp);
      forall m | j <= m < |log| ensures WithinDedupWindow(log[m].timestamp, d.timestamp) {
        assert log[j].timestamp <= log[m].timestamp <= d.timestamp;
      }
      assert WindowFrom(log, d.timestamp, j, |log|);
    }
    if IsDuplicate(log, d) {
      DuplicateHasWitness(log, d);
    }
  }

  /** No two entries of the same source lie within 500 ms of each other. */
  ghost predicate NoCloseSameSource(log: seq<UsageEvent>) {
    forall i, j :: 0 <= i < j < |log| && log[i].source == log[j].source
      ==> !WithinDedupWindow(log[i].timestamp, log[j].timestamp)
  }

  // ---------------------------------------------------------------------------
  // Canonicalisation
  // ---------------------------------------------------------------------------

  const UnknownModel: string := "unknown"

  /** All four fields of the hint are present. */
  predicate IsComplete(p: PartialRateLimit) {
    p.remaining.Some? && p.limit.Some? && p.resetAt.Some? && p.percentUsed.Some?
  }

  /** Promotes a rate-limit hint to a snapshot only when it is complete: all or nothing. */
  function SnapshotOf(info: Option<PartialRateLimit>): (s: Option<RateLimitSnapshot>)
    ensures s.Some? <==> info.Some? && IsComplete(info.value)
    ensures s.Some? ==> && s.value.remaining == info.value.remaining.value
                        && s.value.limit == info.value.limit.value
                        && s.value.resetAt == info.value.resetAt.value
                        && s.value.percentUsed == info.value.percentUsed.value
  {
    match info
    case Some(p) =>
      if IsComplete(p) then
        Some(RateLimitSnapshot(p.remaining.value, p.limit.value, p.resetAt.value, p.percentUsed.value))
      else None
    case None => None
  }

  /** The canonical usage record for an accepted detection, under the fresh identifier `id`. */
  function Canonicalize(d: DetectedEvent, id: string): (e: UsageEvent)
    ensures e.id == id
    ensures e.timestamp == d.timestamp && e.source == d.source && e.tokenEstimate == d.tokenEstimate
    ensures d.modelHint.Some? ==> e.model == d.modelHint.value
    ensures d.modelHint.None? ==> e.model == UnknownModel
    ensures e.usageType == UnknownType
    ensures e.rateLimitSnapshot.Some? <==> d.rateLimitInfo.Some? && IsComplete(d.rateLimitInfo.value)
  {
    UsageEvent(
      id := id,
      timestamp := d.timestamp,
      model := d.modelHint.GetOr(UnknownModel),
      usageType := UnknownType,
      source := d.source,
      tokenEstimate := d.tokenEstimate,
      rateLimitSnapshot := SnapshotOf(d.rateLimitInfo))
  }

  /** A detection that carries everything a canonical record holds. */
  function Redetect(e: UsageEvent): DetectedEvent {
    var info := match e.rateLimitSnapshot
      case Some(s) => Some(PartialRateLimit(Some(s.remaining), Some(s.limit), Some(s.resetAt), Some(s.percentUsed)))
      case None => None;
    DetectedEvent(e.timestamp, e.source, Some(e.model), e.tokenEstimate, info)
  }

  /** Canonicalisation loses nothing a canonical record keeps: re-detecting a record reproduces it. */
  lemma CanonicalizeRedetect(e: UsageEvent)
    requires e.usageType == UnknownType
    ensures Canonicalize(Redetect(e), e.id) == e
  {
  }

  /** A hint missing any one of the four fields never becomes a snapshot. */
  lemma PartialHintNoSnapshot(d: DetectedEvent, id: string)
    requires d.rateLimitInfo.Some?
    requires d.rateLimitInfo.value.remaining.None? || d.rateLimitInfo.value.limit.None?
          || d.rateLimitInfo.value.resetAt.None? || d.rateLimitInfo.value.percentUsed.None?
    ensures Canonicalize(d, id).rateLimitSnapshot.None?
  {
  }

  // ---------------------------------------------------------------------------
  // Summary
  // ---------------------------------------------------------------------------

  /** The instants the windows are measured from: now, and local midnight of now. */
  datatype Clock = Clock(now: Millis, dayStart: Millis)

  /** `currentDayCount / estimatedDailyLimit * 100`, or 0 when the limit is not positive. */
  function PercentUsed(dayCount: nat, dailyLimit: int): (p: real)
    ensures dailyLimit <= 0 ==> p == 0.0
    ensures dailyLimit > 0 ==> p * (dailyLimit as real) == (dayCount as real) * 100.0
    ensures p >= 0.0
  {
    if dailyLimit > 0 then (dayCount as real / dailyLimit as real) * 100.0 else 0.0
  }

  /** The threshold classifier: critical first, then warning, both inclusive. */
  function Classify(percent: real, settings: GlobalSettings): (s: RateLimitStatus)
    ensures s == Critical <==> percent >= settings.criticalThresholdPercent as real
    ensures s == Warning <==> (percent < settings.criticalThresholdPercent as real
                               && percent >= settings.warningThresholdPercent as real)
    ensures s == Ok <==> (percent < settings.criticalThresholdPercent as real
                          && percent < settings.warningThresholdPercent as real)
    ensures s != UnknownStatus
  {
    if percent >= settings.criticalThresholdPercent as real then Critical
    else if percent >= settings.warningThresholdPercent as real then Warning
    else Ok
  }

  /** Threshold test without division: `percent >= threshold` iff `day * 100 >= threshold * limit`. */
  lemma {:induction false} PercentAtLeast(dayCount: nat, dailyLimit: int, threshold: int)
    requires dailyLimit > 0
    ensures PercentUsed(dayCount, dailyLimit) >= threshold as real <==> dayCount * 100 >= threshold * dailyLimit
  {
    var p := PercentUsed(dayCount, dailyLimit);
    var l := dailyLimit as real;
    assert p * l == (dayCount * 100) as real;
    if p >= threshold as real {
      assert p * l >= (threshold as real) * l;
    } else {
      assert p * l < (threshold as real) * l;
    }
  }

  /** The status decided by integer cross-multiplication, as an independent reference. */
  function StatusByCounts(dayCount: nat, settings: GlobalSettings): RateLimitStatus {
    var limit := settings.estimatedDailyLimit;
    if limit <= 0 then
      (if 0 >= settings.criticalThresholdPercent then Critical
       else if 0 >= settings.warningThresholdPercent then Warning
       else Ok)
    else if dayCount * 100 >= settings.criticalThresholdPercent * limit then Critical
    else if dayCount * 100 >= settings.warningThresholdPercent * limit then Warning
    else Ok
  }

  /** The classifier applied to the real-valued percentage agrees with the integer reference. */
  lemma ClassifyMatchesCounts(dayCount: nat, settings: GlobalSettings)
    ensures Classify(PercentUsed(dayCount, settings.estimatedDailyLimit), settings)
         == StatusByCounts(dayCount, settings)
  {
    if settings.estimatedDailyLimit > 0 {
      PercentAtLeast(dayCount, settings.estimatedDailyLimit, settings.criticalThresholdPercent);
      PercentAtLeast(dayCount, settings.estimatedDailyLimit, settings.warningThresholdPercent);
    }
  }

  /**
   * The rolling-window summary: the minute window nests in the hour window, which nests in
   * the session; the day window also lies within the session; the last timestamp is that
   * of the last entry.
   */
  function ComputeSummary(events: seq<UsageEvent>, clock: Clock, settings: GlobalSettings): (s: UsageSummary)
    ensures s.sessionCount == |events|
    ensures s.currentMinuteCount <= s.currentHourCount <= s.sessionCount
    ensures s.currentDayCount <= s.sessionCount
    ensures |events| == 0 ==> s.lastEventTimestamp.None?
    ensures |events| > 0 ==> s.lastEventTimestamp == Some(events[|events| - 1].timestamp)
    ensures s.rateLimitStatus != UnknownStatus
    ensures s.rateLimitStatus == StatusByCounts(s.currentDayCount, settings)
    ensures s.currentMinuteCount == CountFrom(events, clock.now - MillisPerMinute)
    ensures s.currentHourCount == CountFrom(events, clock.now - MillisPerHour)
    ensures s.currentDayCount == CountFrom(events, clock.dayStart)
    ensures s.rateLimitPercentUsed == PercentUsed(s.currentDayCount, settings.estimatedDailyLimit)
  {
    var minuteCount := |Since(events, clock.now - MillisPerMinute)|;
    var hourCount := |Since(events, clock.now - MillisPerHour)|;
    var dayCount := |Since(events, clock.dayStart)|;
    var percent := PercentUsed(dayCount, settings.estimatedDailyLimit);
    SinceAntitone(events, clock.now - MillisPerHour, clock.now - MillisPerMinute);
    ClassifyMatchesCounts(dayCount, settings);
    SinceCount(events, clock.now - MillisPerMinute);
    SinceCount(events, clock.now - MillisPerHour);
    SinceCount(events, clock.dayStart);
    UsageSummary(
      currentMinuteCount := minuteCount,
      currentHourCount := hourCount,
      currentDayCount := dayCount,
      sessionCount := |events|,
      rateLimitStatus := Classify(percent, settings),
      rateLimitPercentUsed := percent,
      lastEventTimestamp := if |events| > 0 then Some(events[|events| - 1].timestamp) else None)
  }

  /** When every event is within the last minute and today, all four windows count all of them. */
  lemma AllRecentCountsAgree(events: seq<UsageEvent>, clock: Clock, settings: GlobalSettings)
    requires forall i :: 0 <= i < |events| ==> events[i].timestamp >= clock.now - MillisPerMinute
    requires forall i :: 0 <= i < |events| ==> events[i].timestamp >= clock.dayStart
    ensures var s := ComputeSummary(events, clock, settings);
      s.currentMinuteCount == s.currentHourCount == s.currentDayCount == s.sessionCount == |events|
  {
    SinceKeepsAll(events, clock.now - MillisPerMinute);
    SinceKeepsAll(events, clock.now - MillisPerHour);
    SinceKeepsAll(events, clock.dayStart);
  }

  // ---------------------------------------------------------------------------
  // Recent events
  // ---------------------------------------------------------------------------

  /** The start index JavaScript's `slice(start)` uses on a sequence of length `len`. */
  function SliceStart(len: nat, start: int): (k: nat)
    ensures k <= len
  {
    if start < 0 then (if len + start < 0 then 0 else len + start)
    else if start > len then len
    else start
  }

  function Min(a: int, b: int): int {
    if a <= b then a else b
  }

  /**
   * `events.slice(-count)`: for a positive count, the last `min(count, n)` events in arrival
   * order; for 0, the whole log (`-0` is `0`); for a negative count, all but the first `-count`.
   */
  function GetRecentEvents(events: seq<UsageEvent>, count: int): (r: seq<UsageEvent>)
    ensures count >= 1 ==> |r| == Min(count, |events|)
    ensures count <= 0 ==> |r| == |events| - Min(-count, |events|)
    ensures r == events[|events| - |r|..]
  {
    events[SliceStart(|events|, -count)..]
  }

  /** Asking for fewer recent events gives a suffix of asking for more. */
  lemma RecentEventsNest(events: seq<UsageEvent>, k1: int, k2: int)
    requires 1 <= k1 <= k2
    ensures var r1 := GetRecentEvents(events, k1);
            var r2 := GetRecentEvents(events, k2);
            |r1| <= |r2| && r1 == r2[|r2| - |r1|..]
  {
  }

  // ---------------------------------------------------------------------------
  // The tracker as a state machine
  // ---------------------------------------------------------------------------

  /** Identifies one registered detection strategy. */
  type StrategyId = nat

  /**
   * The tracker's state: the in-memory log, the strategies whose notifications it listens to,
   * and whether it has been disposed (its own notification stream closed).
   */
  datatype Tracker = Tracker(events: seq<UsageEvent>, listeners: set<StrategyId>, disposed: bool)

  const NewTracker := Tracker([], {}, false)

  /** What one callback produced: the new state, the event handed to storage, the summary broadcast. */
  datatype Update = Update(tracker: Tracker, stored: Option<UsageEvent>, notified: Option<UsageSummary>)

  function RegisterStrategy(t: Tracker, s: StrategyId): (t': Tracker)
    ensures t'.events == t.events && t'.disposed == t.disposed
    ensures t'.listeners == t.listeners + {s}
  {
    t.(listeners := t.listeners + {s})
  }

  /**
   * Handling one detection. A duplicate changes nothing, is not stored and notifies nobody.
   * Otherwise the log grows by exactly the canonical event, placed last with every earlier
   * entry untouched; that event goes to storage, and the fresh summary is broadcast unless the
   * tracker has been disposed.
   */
  function HandleDetectedEvent(t: Tracker, d: DetectedEvent, id: string, clock: Clock, settings: GlobalSettings)
    : (u: Update)
    ensures IsDuplicate(t.events, d) ==> u == Update(t, None, None)
    ensures !IsDuplicate(t.events, d) ==>
      && |u.tracker.events| == |t.events| + 1
      && u.tracker.events[..|t.events|] == t.events
      && u.tracker.events[|t.events|] == Canonicalize(d, id)
      && u.tracker.listeners == t.listeners && u.tracker.disposed == t.disposed
      && u.stored == Some(Canonicalize(d, id))
      && (u.notified.Some? <==> !t.disposed)
      && (u.notified.Some? ==> u.notified.value == ComputeSummary(u.tracker.events, clock, settings))
      && (u.notified.Some? ==> u.notified.value.sessionCount == |t.events| + 1
                               && u.notified.value.lastEventTimestamp == Some(d.timestamp))
  {
    if IsDuplicate(t.events, d) then Update(t, None, None)
    else
      var e := Canonicalize(d, id);
      var t' := t.(events := t.events + [e]);
      var summary := ComputeSummary(t'.events, clock, settings);
      assert t'.events[..|t.events|] == t.events;
      Update(t', Some(e), if t.disposed then None else Some(summary))
  }

  /** Strategy `from` fires `d`; only a strategy the tracker still listens to reaches it. */
  function Deliver(t: Tracker, from: StrategyId, d: DetectedEvent, id: string, clock: Clock, settings: GlobalSettings)
    : (u: Update)
    ensures from !in t.listeners ==> u == Update(t, None, None)
    ensures from in t.listeners ==> u == HandleDetectedEvent(t, d, id, clock, settings)
  {
    if from in t.listeners then HandleDetectedEvent(t, d, id, clock, settings)
    else Update(t, None, None)
  }

  /** The ten-second refresh: a fresh summary, unless the tracker has been disposed. */
  function Refresh(t: Tracker, clock: Clock, settings: GlobalSettings): (s: Option<UsageSummary>)
    ensures s.Some? <==> !t.disposed
    ensures s.Some? ==> s.value == ComputeSummary(t.events, clock, settings)
    ensures s.Some? ==> s.value.sessionCount == |t.events|
  {
    if t.disposed then None else Some(ComputeSummary(t.events, clock, settings))
  }

  /** Teardown: stop listening to every strategy and close the notification stream. */
  function Dispose(t: Tracker): (t': Tracker)
    ensures t'.events == t.events
    ensures t'.listeners == {} && t'.disposed
  {
    Tracker(t.events, {}, true)
  }

  /** One strategy firing: who fires, what, and the fresh id the record would get. */
  datatype Firing = Firing(from: StrategyId, detected: DetectedEvent, id: string, clock: Clock)

  /** A run of firings, one after another; returns the final tracker and the storage appends. */
  function DeliverAll(t: Tracker, firings: seq<Firing>, settings: GlobalSettings): (r: (Tracker, seq<UsageEvent>))
    decreases |firings|
  {
    if |firings| == 0 then (t, [])
    else
      var f := firings[0];
      var u := Deliver(t, f.from, f.detected, f.id, f.clock, settings);
      var rest := DeliverAll(u.tracker, firings[1..], settings);
      (rest.0, (if u.stored.Some? then [u.stored.value] else []) + rest.1)
  }

  /**
   * After teardown no firing of any strategy, however many, reaches the log or storage, and
   * nothing is broadcast.
   */
  lemma {:induction false} NothingAfterDispose(t: Tracker, firings: seq<Firing>, settings: GlobalSettings)
    ensures DeliverAll(Dispose(t), firings, settings) == (Dispose(t), [])
    decreases |firings|
  {
    if |firings| > 0 {
      var f := firings[0];
      var u := Deliver(Dispose(t), f.from, f.detected, f.id, f.clock, settings);
      assert u == Update(Dispose(t), None, None);
      NothingAfterDispose(t, firings[1..], settings);
      var rest := DeliverAll(u.tracker, firings[1..], settings);
      assert rest == (Dispose(t), []);
      var none: seq<UsageEvent> := [];
      assert none + rest.1 == [];
      assert DeliverAll(Dispose(t), firings, settings) == (rest.0, none + rest.1);
    }
  }

  /**
   * The log invariant enforced at insertion: on a time-ordered log with no two close
   * same-source entries, handling an in-order arrival keeps both properties.
   */
  lemma HandlePreservesLogInvariant(t: Tracker, d: DetectedEvent, id: string, clock: Clock, settings: GlobalSettings)
    requires TimeOrdered(t.events) && NoCloseSameSource(t.events)
    requires ArrivesInOrder(t.events, d)
    ensures var t' := HandleDetectedEvent(t, d, id, clock, settings).tracker;
            TimeOrdered(t'.events) && NoCloseSameSource(t'.events)
  {
    if !IsDuplicate(t.events, d) {
      DuplicateOnOrderedLog(t.events, d);
      var log := t.events + [Canonicalize(d, id)];
      assert HandleDetectedEvent(t, d, id, clock, settings).tracker.events == log;
      forall i, j | 0 <= i < j < |log| && log[i].source == log[j].source
        ensures !WithinDedupWindow(log[i].timestamp, log[j].timestamp)
      {
        if j == |t.events| {
          assert log[i] == t.events[i];
          assert !WithinDedupWindow(t.events[i].timestamp, d.timestamp);
        } else {
          assert log[i] == t.events[i] && log[j] == t.events[j];
        }
      }
    }
  }

  /** Two events of the same source at most 500 ms apart: the second is dropped. */
  lemma SecondCloseSameSourceDropped(log: seq<UsageEvent>, d1: DetectedEvent, id: string, d2: DetectedEvent)
    requires d1.source == d2.source
    requires WithinDedupWindow(d1.timestamp, d2.timestamp)
    ensures IsDuplicate(log + [Canonicalize(d1, id)], d2)
  {
    var log' := log + [Canonicalize(d1, id)];
    assert WindowFrom(log', d2.timestamp, |log|, |log'|);
  }

  /**
   * Two events of different sources, with any gap: when nothing of the second's source is
   * logged yet, the second is kept after the first.
   */
  lemma DifferentSourcesBothKept(log: seq<UsageEvent>, d1: DetectedEvent, id: string, d2: DetectedEvent)
    requires d1.source != d2.source
    requires forall i :: 0 <= i < |log| ==> log[i].source != d2.source
    ensures !IsDuplicate(log + [Canonicalize(d1, id)], d2)
  {
    var log' := log + [Canonicalize(d1, id)];
    forall j | 0 <= j < |log'| ensures log'[j].source != d2.source {
      if j < |log| {
        assert log'[j] == log[j];
      }
    }
    if IsDuplicate(log', d2) {
      DuplicateHasWitness(log', d2);
    }
  }
}
