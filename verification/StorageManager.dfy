/**
 * Persistence of the event log and the settings
 * (src/infrastructure/storage/storage-manager.ts). The workspace and global stores
 * become values passed in and returned; the five-second write debounce is left out.
 * Pruning moves events older than seven days into one summary per UTC day and keeps
 * ninety days of summaries.
 */
module StorageManager {
  import opened Wrappers
  import opened Tally
  import opened Types
  import opened EventLog

  const SchemaVersion: int := 1
  const MaxEventAgeDays: int := 7
  const SummaryRetentionDays: int := 90

  /** Seven days in milliseconds. */
  const MaxEventAgeMs: int := MaxEventAgeDays * 24 * 60 * 60 * 1000

  const DefaultUsageData := PersistedUsageData(SchemaVersion, [], [], None)

  const DefaultSettings := GlobalSettings(
    SchemaVersion, 70, 90, 1500, 30, true, [LogFile, CompletionEvent, Manual])

  // ---------------------------------------------------------------------------
  // Appending
  // ---------------------------------------------------------------------------

  /** `appendEvent`: the event joins the log; a complete rate-limit snapshot becomes the last known one. */
  function AppendEvent(data: PersistedUsageData, e: UsageEvent): (d: PersistedUsageData)
    ensures d.events == data.events + [e]
    ensures d.version == data.version && d.dailySummaries == data.dailySummaries
    ensures e.rateLimitSnapshot.Some? ==> d.lastKnownRateLimit == e.rateLimitSnapshot
    ensures e.rateLimitSnapshot.None? ==> d.lastKnownRateLimit == data.lastKnownRateLimit
  {
    data.(events := data.events + [e],
          lastKnownRateLimit := if e.rateLimitSnapshot.Some? then e.rateLimitSnapshot else data.lastKnownRateLimit)
  }

  /** Appending several events, oldest first. */
  function AppendAll(data: PersistedUsageData, es: seq<UsageEvent>): PersistedUsageData
    decreases |es|
  {
    if |es| == 0 then data else AppendAll(AppendEvent(data, es[0]), es[1..])
  }

  /** The snapshot of the newest event that carries one. */
  function LatestSnapshot(es: seq<UsageEvent>): Option<RateLimitSnapshot>
    decreases |es|
  {
    if |es| == 0 then None
    else if es[|es| - 1].rateLimitSnapshot.Some? then es[|es| - 1].rateLimitSnapshot
    else LatestSnapshot(es[..|es| - 1])
  }

  lemma {:induction false} LatestSnapshotSnoc(es: seq<UsageEvent>, e: UsageEvent)
    ensures LatestSnapshot(es + [e]) == if e.rateLimitSnapshot.Some? then e.rateLimitSnapshot else LatestSnapshot(es)
  {
    assert (es + [e])[..|es|] == es;
  }

  lemma {:induction false} LatestSnapshotCons(e: UsageEvent, es: seq<UsageEvent>)
    ensures LatestSnapshot([e] + es) == LatestSnapshot(es).Or(e.rateLimitSnapshot)
    decreases |es|
  {
    if |es| > 0 {
      var init := es[..|es| - 1];
      assert ([e] + es)[..|es|] == [e] + init;
      LatestSnapshotCons(e, init);
    } else {
      assert [e] + es == [e];
    }
  }

  /**
   * After appending a run of events, every event is in the log in order, and the last known
   * rate limit is that of the newest appended event with a snapshot, or the earlier one if none has.
   */
  lemma {:induction false} AppendAllKeepsLatestSnapshot(data: PersistedUsageData, es: seq<UsageEvent>)
    ensures AppendAll(data, es).events == data.events + es
    ensures AppendAll(data, es).lastKnownRateLimit == LatestSnapshot(es).Or(data.lastKnownRateLimit)
    ensures AppendAll(data, es).dailySummaries == data.dailySummaries
    decreases |es|
  {
    if |es| > 0 {
      var next := AppendEvent(data, es[0]);
      AppendAllKeepsLatestSnapshot(next, es[1..]);
      assert next.events + es[1..] == data.events + es;
      LatestSnapshotCons(es[0], es[1..]);
      assert [es[0]] + es[1..] == es;
    }
  }

  // ---------------------------------------------------------------------------
  // Daily summaries
  // ---------------------------------------------------------------------------

  function DayKey(e: UsageEvent): Day {
    DayOf(e.timestamp)
  }

  function ModelOf(e: UsageEvent): string {
    e.model
  }

  function ModelsOf(es: seq<UsageEvent>): (ms: seq<string>)
    ensures |ms| == |es|
    ensures forall i :: 0 <= i < |es| ==> ms[i] == es[i].model
  {
    seq(|es|, i requires 0 <= i < |es| => es[i].model)
  }

  function MinutesOf(es: seq<UsageEvent>): (ms: seq<int>)
    ensures |ms| == |es|
    ensures forall i :: 0 <= i < |es| ==> ms[i] == MinuteOf(es[i].timestamp)
  {
    seq(|es|, i requires 0 <= i < |es| => MinuteOf(es[i].timestamp))
  }

  function TypesOf(es: seq<UsageEvent>): (ts: seq<UsageType>)
    ensures |ts| == |es|
    ensures forall i :: 0 <= i < |es| ==> ts[i] == es[i].usageType
  {
    seq(|es|, i requires 0 <= i < |es| => es[i].usageType)
  }

  /** The per-type counts, each starting at 0 and bumped once per event. */
  function CountTypes(es: seq<UsageEvent>): (c: TypeCounts)
    ensures c.completion + c.chat + c.inlineEdit + c.unknown == |es|
    ensures c.completion == Occurrences(TypesOf(es), Completion)
    ensures c.chat == Occurrences(TypesOf(es), Chat)
    ensures c.inlineEdit == Occurrences(TypesOf(es), InlineEdit)
    ensures c.unknown == Occurrences(TypesOf(es), UnknownType)
    decreases |es|
  {
    if |es| == 0 then TypeCounts(0, 0, 0, 0)
    else
      var init := es[..|es| - 1];
      var c := CountTypes(init);
      var ts := TypesOf(es);
      assert ts[..|ts| - 1] == TypesOf(init);
      var t := es[|es| - 1].usageType;
      assert ts[|ts| - 1] == t;
      OccurrencesLast(ts, TypesOf(init), t, Completion);
      OccurrencesLast(ts, TypesOf(init), t, Chat);
      OccurrencesLast(ts, TypesOf(init), t, InlineEdit);
      OccurrencesLast(ts, TypesOf(init), t, UnknownType);
      match t
      case Completion => c.(completion := c.completion + 1)
      case Chat => c.(chat := c.chat + 1)
      case InlineEdit => c.(inlineEdit := c.inlineEdit + 1)
      case UnknownType => c.(unknown := c.unknown + 1)
  }

  /** The summary of the events of one day. */
  function Summarize(date: Day, es: seq<UsageEvent>): (s: DailySummary)
    ensures s.date == date && s.totalRequests == |es|
    ensures DistinctKeys(s.byModel) && Total(s.byModel) == |es|
    ensures forall m :: CountOf(s.byModel, m) == Occurrences(ModelsOf(es), m)
    ensures s.byType == CountTypes(es)
    ensures forall minute :: Occurrences(MinutesOf(es), minute) <= s.peakRequestsPerMinute
    ensures |es| > 0 ==> exists minute :: minute in MinutesOf(es) && Occurrences(MinutesOf(es), minute) == s.peakRequestsPerMinute
    ensures s.peakRequestsPerMinute <= |es|
  {
    PeakIsMostFrequent(MinutesOf(es));
    DailySummary(date, |es|, CountAll(ModelsOf(es)), CountTypes(es), MaxCount(CountAll(MinutesOf(es))))
  }

  predicate HasDate(ss: seq<DailySummary>, d: Day) {
    exists i :: 0 <= i < |ss| && ss[i].date == d
  }

  /** No two summaries are for the same day. */
  ghost predicate DistinctDates(ss: seq<DailySummary>) {
    forall i, j :: 0 <= i < j < |ss| ==> ss[i].date != ss[j].date
  }

  /**
   * Adding one summary per group, in the groups' order, skipping every day that already has a
   * summary (checked against the list as it grows). The groups come from a `Map`, so their
   * keys are distinct.
   */
  function AddSummaries(existing: seq<DailySummary>, groups: Groups<Day, UsageEvent>): (r: seq<DailySummary>)
    requires DistinctKeys(groups)
    ensures Added(existing, groups, r)
    decreases |groups|
  {
    if |groups| == 0 then existing
    else
      var (date, es) := groups[0];
      var next := if HasDate(existing, date) then existing else existing + [Summarize(date, es)];
      var r := AddSummaries(next, groups[1..]);
      SummarizeKeepsDate();
      AddSummariesStep(existing, groups, next, r, Summarize);
      r
  }

  /** A summariser that dates each group's summary with the group's day. */
  ghost predicate Dated(f: (Day, seq<UsageEvent>) -> DailySummary) {
    forall d, es :: f(d, es).date == d
  }

  lemma SummarizeKeepsDate()
    ensures Dated(Summarize)
  {
  }

  /**
   * `r` is `existing` followed by the summary of every group whose day `existing` lacks, and
   * nothing else: every day of a group then has a summary, and days stay distinct.
   */
  ghost predicate Added(existing: seq<DailySummary>, groups: Groups<Day, UsageEvent>, r: seq<DailySummary>) {
    AddedBy(existing, groups, r, Summarize)
  }

  /** `Added` for any summariser `f`; the proofs below need nothing of `f` but its dates. */
  ghost predicate AddedBy(existing: seq<DailySummary>, groups: Groups<Day, UsageEvent>, r: seq<DailySummary>,
                          f: (Day, seq<UsageEvent>) -> DailySummary) {
    && existing <= r
    && (forall g | g in groups :: HasDate(r, g.0))
    && (forall g | g in groups && !HasDate(existing, g.0) :: f(g.0, g.1) in r)
    && (forall x | x in r[|existing|..] :: exists g | g in groups :: !HasDate(existing, g.0) && x == f(g.0, g.1))
    && (DistinctDates(existing) ==> DistinctDates(r))
  }

  /** A prefix's days are days of the whole list. */
  lemma HasDatePrefix(a: seq<DailySummary>, b: seq<DailySummary>, d: Day)
    requires a <= b && HasDate(a, d)
    ensures HasDate(b, d)
  {
    var i :| 0 <= i < |a| && a[i].date == d;
    assert b[i] == a[i];
  }

  lemma AddSummariesStep(existing: seq<DailySummary>, groups: Groups<Day, UsageEvent>, next: seq<DailySummary>,
                         r: seq<DailySummary>, f: (Day, seq<UsageEvent>) -> DailySummary)
    requires Dated(f)
    requires |groups| > 0 && DistinctKeys(groups)
    requires next == if HasDate(existing, groups[0].0) then existing else existing + [f(groups[0].0, groups[0].1)]
    requires AddedBy(next, groups[1..], r, f)
    ensures AddedBy(existing, groups, r, f)
  {
    assert forall g | g in groups[1..] :: g in groups;
    assert forall g | g in groups :: g == groups[0] || g in groups[1..];
    if HasDate(existing, groups[0].0) {
      HasDatePrefix(existing, r, groups[0].0);
    } else {
      AddedNew(existing, groups, r, f);
    }
  }

  /** The first group's day has no summary yet: its summary comes next. */
  lemma AddedNew(existing: seq<DailySummary>, groups: Groups<Day, UsageEvent>, r: seq<DailySummary>,
                 f: (Day, seq<UsageEvent>) -> DailySummary)
    requires Dated(f)
    requires |groups| > 0 && DistinctKeys(groups) && !HasDate(existing, groups[0].0)
    requires AddedBy(existing + [f(groups[0].0, groups[0].1)], groups[1..], r, f)
    ensures AddedBy(existing, groups, r, f)
  {
    var first := f(groups[0].0, groups[0].1);
    var next := existing + [first];
    var rest := groups[1..];
    AddedNewPrefix(existing, first, r);
    assert r[|existing|] == next[|existing|] == first;
    assert first in r;
    assert r[|existing|..] == [first] + r[|next|..];
    forall g | g in rest ensures g in groups && g.0 != groups[0].0 {
      var k :| 0 <= k < |rest| && rest[k] == g;
      assert groups[k + 1] == g;
    }
    forall g | g in groups && !HasDate(existing, g.0) ensures f(g.0, g.1) in r {
      if g != groups[0] {
        assert g in rest;
        assert !HasDate(next, g.0);
      }
    }
    AddedNewDistinct(existing, first, r);
  }

  /** Appending a summary for a day `existing` lacks keeps the days distinct. */
  lemma AddedNewDistinct(existing: seq<DailySummary>, first: DailySummary, r: seq<DailySummary>)
    requires !HasDate(existing, first.date)
    requires DistinctDates(existing + [first]) ==> DistinctDates(r)
    ensures DistinctDates(existing) ==> DistinctDates(r)
  {
    if DistinctDates(existing) {
      var next := existing + [first];
      forall i, j | 0 <= i < j < |next| ensures next[i].date != next[j].date {
        if j == |existing| {
          assert next[i] == existing[i];
        } else {
          assert next[i] == existing[i] && next[j] == existing[j];
        }
      }
    }
  }

  lemma AddedNewPrefix(existing: seq<DailySummary>, first: DailySummary, r: seq<DailySummary>)
    requires existing + [first] <= r
    ensures existing <= r
    ensures forall d :: HasDate(existing, d) ==> HasDate(existing + [first], d)
  {
    assert r[..|existing|] == (existing + [first])[..|existing|];
    forall d | HasDate(existing, d) ensures HasDate(existing + [first], d) {
      HasDatePrefix(existing, existing + [first], d);
    }
  }

  /** The summaries on or after `day` (`s.date >= cutoff`), in order. */
  function KeepFrom(ss: seq<DailySummary>, day: Day): (r: seq<DailySummary>)
    ensures |r| <= |ss|
    ensures forall i :: 0 <= i < |r| ==> r[i].date >= day
    decreases |ss|
  {
    if |ss| == 0 then []
    else
      var last := ss[|ss| - 1];
      KeepFrom(ss[..|ss| - 1], day) + (if last.date >= day then [last] else [])
  }

  /** Exactly the summaries on or after `day` are kept. */
  lemma {:induction false} KeepFromMembers(ss: seq<DailySummary>, day: Day)
    ensures forall s :: s in KeepFrom(ss, day) <==> s in ss && s.date >= day
    decreases |ss|
  {
    if |ss| > 0 {
      KeepFromMembers(ss[..|ss| - 1], day);
      assert ss == ss[..|ss| - 1] + [ss[|ss| - 1]];
    }
  }

  /** Filtering keeps distinct days distinct. */
  lemma {:induction false} KeepFromDistinct(ss: seq<DailySummary>, day: Day)
    requires DistinctDates(ss)
    ensures DistinctDates(KeepFrom(ss, day))
    decreases |ss|
  {
    if |ss| > 0 {
      var init := ss[..|ss| - 1];
      var last := ss[|ss| - 1];
      KeepFromDistinct(init, day);
      KeepFromMembers(init, day);
      var k := KeepFrom(init, day);
      forall i | 0 <= i < |k| ensures k[i].date != last.date {
        assert k[i] in init;
      }
    }
  }

  /** Filtering twice with the same cut-off is filtering once. */
  lemma {:induction false} KeepFromIdempotent(ss: seq<DailySummary>, day: Day)
    ensures KeepFrom(KeepFrom(ss, day), day) == KeepFrom(ss, day)
  {
    var k := KeepFrom(ss, day);
    KeepFromKeepsAll(k, day);
  }

  lemma {:induction false} KeepFromKeepsAll(ss: seq<DailySummary>, day: Day)
    requires forall i :: 0 <= i < |ss| ==> ss[i].date >= day
    ensures KeepFrom(ss, day) == ss
    decreases |ss|
  {
    if |ss| > 0 {
      KeepFromKeepsAll(ss[..|ss| - 1], day);
      assert ss == ss[..|ss| - 1] + [ss[|ss| - 1]];
    }
  }

  // ---------------------------------------------------------------------------
  // Pruning
  // ---------------------------------------------------------------------------

  /**
   * The two clock readings pruning uses: `Date.now()`, and the UTC day of the instant ninety
   * local calendar days earlier.
   */
  datatype PruneClock = PruneClock(now: Millis, summaryCutoffDay: Day)

  function EventCutoff(now: Millis): Millis {
    now - MaxEventAgeMs
  }

  /** The events pruned at `cutoff`, grouped by UTC day in order of first appearance. */
  function OldGroups(events: seq<UsageEvent>, cutoff: Millis): (g: Groups<Day, UsageEvent>)
    ensures GroupsOf(g, Before(events, cutoff), DayKey)
    ensures DistinctKeys(g)
  {
    GroupAll(Before(events, cutoff), DayKey)
  }

  /** `pruneOldData`. */
  function PruneOldData(data: PersistedUsageData, clock: PruneClock): (d: PersistedUsageData)
    ensures d.version == data.version && d.lastKnownRateLimit == data.lastKnownRateLimit
    ensures d.events == Since(data.events, EventCutoff(clock.now))
    ensures forall i :: 0 <= i < |d.dailySummaries| ==> d.dailySummaries[i].date >= clock.summaryCutoffDay
    ensures d.dailySummaries
         == KeepFrom(AddSummaries(data.dailySummaries, OldGroups(data.events, EventCutoff(clock.now))), clock.summaryCutoffDay)
  {
    var cutoff := EventCutoff(clock.now);
    var summaries := AddSummaries(data.dailySummaries, OldGroups(data.events, cutoff));
    data.(events := Since(data.events, cutoff),
          dailySummaries := KeepFrom(summaries, clock.summaryCutoffDay))
  }

  /** Exactly the events of the last seven days survive pruning, in order. */
  lemma PruneKeepsRecentEvents(data: PersistedUsageData, clock: PruneClock)
    ensures forall e :: e in PruneOldData(data, clock).events <==>
      e in data.events && e.timestamp >= clock.now - MaxEventAgeMs
  {
    SinceMembers(data.events, EventCutoff(clock.now));
  }

  /**
   * A day with pruned events and no earlier summary, recent enough to be retained, gets the
   * summary of exactly the pruned events of that day.
   */
  lemma PrunedDayIsSummarised(data: PersistedUsageData, clock: PruneClock, e: UsageEvent)
    requires e in data.events && e.timestamp < EventCutoff(clock.now)
    requires !HasDate(data.dailySummaries, DayOf(e.timestamp))
    requires DayOf(e.timestamp) >= clock.summaryCutoffDay
    ensures var day := DayOf(e.timestamp);
      var pruned := Before(data.events, EventCutoff(clock.now));
      Summarize(day, Matching(pruned, DayKey, day)) in PruneOldData(data, clock).dailySummaries
  {
    var cutoff := EventCutoff(clock.now);
    var day := DayOf(e.timestamp);
    var pruned := Before(data.events, cutoff);
    BeforeMembers(data.events, cutoff);
    var j :| 0 <= j < |pruned| && pruned[j] == e;
    var groups := OldGroups(data.events, cutoff);
    assert HasKey(groups, DayKey(pruned[j]));
    var i :| 0 <= i < |groups| && groups[i].0 == day;
    var summaries := AddSummaries(data.dailySummaries, groups);
    assert Summarize(groups[i].0, groups[i].1) in summaries;
    KeepFromMembers(summaries, clock.summaryCutoffDay);
  }

  /** A summary that already existed is never replaced; it stays while recent enough. */
  lemma ExistingSummariesKept(data: PersistedUsageData, clock: PruneClock, s: DailySummary)
    requires s in data.dailySummaries && s.date >= clock.summaryCutoffDay
    ensures s in PruneOldData(data, clock).dailySummaries
  {
    var summaries := AddSummaries(data.dailySummaries, OldGroups(data.events, EventCutoff(clock.now)));
    var i :| 0 <= i < |data.dailySummaries| && data.dailySummaries[i] == s;
    assert summaries[i] == s;
    KeepFromMembers(summaries, clock.summaryCutoffDay);
  }

  /** Pruning never creates a second summary for a day. */
  lemma PruneKeepsDatesDistinct(data: PersistedUsageData, clock: PruneClock)
    requires DistinctDates(data.dailySummaries)
    ensures DistinctDates(PruneOldData(data, clock).dailySummaries)
  {
    var summaries := AddSummaries(data.dailySummaries, OldGroups(data.events, EventCutoff(clock.now)));
    KeepFromDistinct(summaries, clock.summaryCutoffDay);
  }

  /** Pruning again with the same clock changes nothing. */
  lemma PruneIdempotent(data: PersistedUsageData, clock: PruneClock)
    ensures PruneOldData(PruneOldData(data, clock), clock) == PruneOldData(data, clock)
  {
    var cutoff := EventCutoff(clock.now);
    var once := PruneOldData(data, clock);
    SinceKeepsAll(once.events, cutoff);
    SinceBeforePartition(once.events, cutoff);
    assert Before(once.events, cutoff) == [];
    KeepFromIdempotent(AddSummaries(data.dailySummaries, OldGroups(data.events, cutoff)), clock.summaryCutoffDay);
  }

  /** `clearAllData`: back to the empty log of the current schema. */
  function ClearAllData(): (d: PersistedUsageData)
    ensures d.version == SchemaVersion && d.events == [] && d.dailySummaries == [] && d.lastKnownRateLimit.None?
  {
    DefaultUsageData
  }

  // ---------------------------------------------------------------------------
  // Loading and migration
  // ---------------------------------------------------------------------------

  /** The usage data as found in the workspace store: any field may be missing. */
  datatype RawUsageData = RawUsageData(
    version: Option<int>,
    events: Option<seq<UsageEvent>>,
    dailySummaries: Option<seq<DailySummary>>,
    lastKnownRateLimit: Option<RateLimitSnapshot>)

  /** What storing a complete value writes. */
  function Stored(p: PersistedUsageData): RawUsageData {
    RawUsageData(Some(p.version), Some(p.events), Some(p.dailySummaries), p.lastKnownRateLimit)
  }

  predicate IsCurrent(r: RawUsageData) {
    r.version.Some? && r.version.value >= SchemaVersion
  }

  /**
   * `migrate`: data without a version, with version 0 or with an older one is lifted to the
   * current schema with missing lists filled in as empty; current data is returned untouched.
   */
  function Migrate(r: RawUsageData): (m: RawUsageData)
    ensures IsCurrent(r) ==> m == r
    ensures !IsCurrent(r) ==>
      && m.version == Some(SchemaVersion)
      && m.events == Some(r.events.GetOr([]))
      && m.dailySummaries == Some(r.dailySummaries.GetOr([]))
      && m.lastKnownRateLimit == r.lastKnownRateLimit
  {
    if r.version.None? || r.version.value < SchemaVersion then
      r.(version := Some(SchemaVersion),
         events := Some(r.events.GetOr([])),
         dailySummaries := Some(r.dailySummaries.GetOr([])))
    else r
  }

  /** Migrating is idempotent, and what is written at the current schema reads back unchanged. */
  lemma MigrateIdempotent(r: RawUsageData, p: PersistedUsageData)
    requires p.version >= SchemaVersion
    ensures Migrate(Migrate(r)) == Migrate(r)
    ensures Migrate(Stored(p)) == Stored(p)
  {
  }

  /** Legacy data always comes out complete: every field a `PersistedUsageData` needs is present. */
  lemma MigratedIsComplete(r: RawUsageData)
    requires !IsCurrent(r)
    ensures var m := Migrate(r); m.version.Some? && m.events.Some? && m.dailySummaries.Some?
  {
  }

  /**
   * `loadUsageData`: the cached value if there is one, the defaults when nothing is stored,
   * otherwise the migrated stored value.
   */
  function LoadUsageData(cache: Option<RawUsageData>, stored: Option<RawUsageData>): (r: RawUsageData)
    ensures cache.Some? ==> r == cache.value
    ensures cache.None? && stored.None? ==> r == Stored(DefaultUsageData)
    ensures cache.None? && stored.Some? ==> r == Migrate(stored.value)
  {
    if cache.Some? then cache.value
    else if stored.None? then Stored(DefaultUsageData)
    else Migrate(stored.value)
  }

  // ---------------------------------------------------------------------------
  // Settings
  // ---------------------------------------------------------------------------

  /** The settings object in the global store: any field may be missing. */
  datatype StoredSettings = StoredSettings(
    version: Option<int>,
    warningThresholdPercent: Option<int>,
    criticalThresholdPercent: Option<int>,
    estimatedDailyLimit: Option<int>,
    estimatedPerMinuteLimit: Option<int>,
    trackingEnabled: Option<bool>,
    detectionStrategies: Option<seq<DetectionSource>>)

  /** What `saveSettings` writes. */
  function SaveSettings(s: GlobalSettings): StoredSettings {
    StoredSettings(Some(s.version), Some(s.warningThresholdPercent), Some(s.criticalThresholdPercent),
                   Some(s.estimatedDailyLimit), Some(s.estimatedPerMinuteLimit),
                   Some(s.trackingEnabled), Some(s.detectionStrategies))
  }

  /** The four numeric settings as the editor configuration has them (None when unset). */
  datatype ConfigValues = ConfigValues(
    estimatedDailyLimit: Option<int>,
    estimatedPerMinuteLimit: Option<int>,
    warningThresholdPercent: Option<int>,
    criticalThresholdPercent: Option<int>)

  const NoConfig := ConfigValues(None, None, None, None)

  /** `{...defaults, ...stored}`: each stored field overrides its default. */
  function Spread(defaults: GlobalSettings, stored: Option<StoredSettings>): (s: GlobalSettings)
    ensures stored.None? ==> s == defaults
    ensures stored.Some? ==> s.trackingEnabled == stored.value.trackingEnabled.GetOr(defaults.trackingEnabled)
    ensures stored.Some? ==> s.estimatedDailyLimit == stored.value.estimatedDailyLimit.GetOr(defaults.estimatedDailyLimit)
    ensures stored.Some? ==> s.version == stored.value.version.GetOr(defaults.version)
    ensures stored.Some? ==> s.warningThresholdPercent == stored.value.warningThresholdPercent.GetOr(defaults.warningThresholdPercent)
    ensures stored.Some? ==> s.criticalThresholdPercent == stored.value.criticalThresholdPercent.GetOr(defaults.criticalThresholdPercent)
    ensures stored.Some? ==> s.estimatedPerMinuteLimit == stored.value.estimatedPerMinuteLimit.GetOr(defaults.estimatedPerMinuteLimit)
    ensures stored.Some? ==> s.detectionStrategies == stored.value.detectionStrategies.GetOr(defaults.detectionStrategies)
  {
    match stored
    case None => defaults
    case Some(st) =>
      GlobalSettings(
        st.version.GetOr(defaults.version),
        st.warningThresholdPercent.GetOr(defaults.warningThresholdPercent),
        st.criticalThresholdPercent.GetOr(defaults.criticalThresholdPercent),
        st.estimatedDailyLimit.GetOr(defaults.estimatedDailyLimit),
        st.estimatedPerMinuteLimit.GetOr(defaults.estimatedPerMinuteLimit),
        st.trackingEnabled.GetOr(defaults.trackingEnabled),
        st.detectionStrategies.GetOr(defaults.detectionStrategies))
  }

  /**
   * `loadSettings` as written: the spread, then each numeric field from the configuration or,
   * when unset, from the defaults, so a stored numeric value never takes effect.
   */
  function LoadSettingsAsWritten(config: ConfigValues, stored: Option<StoredSettings>): (s: GlobalSettings)
    ensures s.estimatedDailyLimit == config.estimatedDailyLimit.GetOr(DefaultSettings.estimatedDailyLimit)
    ensures s.estimatedPerMinuteLimit == config.estimatedPerMinuteLimit.GetOr(DefaultSettings.estimatedPerMinuteLimit)
    ensures s.warningThresholdPercent == config.warningThresholdPercent.GetOr(DefaultSettings.warningThresholdPercent)
    ensures s.criticalThresholdPercent == config.criticalThresholdPercent.GetOr(DefaultSettings.criticalThresholdPercent)
    ensures s.version == Spread(DefaultSettings, stored).version
    ensures s.trackingEnabled == Spread(DefaultSettings, stored).trackingEnabled
    ensures s.detectionStrategies == Spread(DefaultSettings, stored).detectionStrategies
  {
    Spread(DefaultSettings, stored).(
      estimatedDailyLimit := config.estimatedDailyLimit.GetOr(DefaultSettings.estimatedDailyLimit),
      estimatedPerMinuteLimit := config.estimatedPerMinuteLimit.GetOr(DefaultSettings.estimatedPerMinuteLimit),
      warningThresholdPercent := config.warningThresholdPercent.GetOr(DefaultSettings.warningThresholdPercent),
      criticalThresholdPercent := config.criticalThresholdPercent.GetOr(DefaultSettings.criticalThresholdPercent))
  }

  /**
   * A daily limit of 2000 saved from the dashboard, with the configuration unset, loads as
   * the default 1500.
   */
  lemma SavedDailyLimitIgnoredAsWritten()
    ensures var saved := SaveSettings(DefaultSettings.(estimatedDailyLimit := 2000));
      LoadSettingsAsWritten(NoConfig, Some(saved)).estimatedDailyLimit == 1500
  {
  }

  /**
   * `loadSettings` with the precedence its comment describes: the configuration overrides the
   * stored settings, which override the defaults.
   */
  function LoadSettings(config: ConfigValues, stored: Option<StoredSettings>): (s: GlobalSettings)
    ensures config.estimatedDailyLimit.Some? ==> s.estimatedDailyLimit == config.estimatedDailyLimit.value
    ensures config.warningThresholdPercent.Some? ==> s.warningThresholdPercent == config.warningThresholdPercent.value
    ensures config.criticalThresholdPercent.Some? ==> s.criticalThresholdPercent == config.criticalThresholdPercent.value
    ensures config.estimatedPerMinuteLimit.Some? ==> s.estimatedPerMinuteLimit == config.estimatedPerMinuteLimit.value
    ensures config.estimatedDailyLimit.None? ==> s.estimatedDailyLimit == Spread(DefaultSettings, stored).estimatedDailyLimit
    ensures config.warningThresholdPercent.None? ==> s.warningThresholdPercent == Spread(DefaultSettings, stored).warningThresholdPercent
    ensures config.criticalThresholdPercent.None? ==> s.criticalThresholdPercent == Spread(DefaultSettings, stored).criticalThresholdPercent
    ensures config.estimatedPerMinuteLimit.None? ==> s.estimatedPerMinuteLimit == Spread(DefaultSettings, stored).estimatedPerMinuteLimit
    ensures s.version == Spread(DefaultSettings, stored).version
    ensures s.trackingEnabled == Spread(DefaultSettings, stored).trackingEnabled
    ensures s.detectionStrategies == Spread(DefaultSettings, stored).detectionStrategies
    ensures config == NoConfig ==> s == Spread(DefaultSettings, stored)
  {
    var base := Spread(DefaultSettings, stored);
    base.(
      estimatedDailyLimit := config.estimatedDailyLimit.GetOr(base.estimatedDailyLimit),
      estimatedPerMinuteLimit := config.estimatedPerMinuteLimit.GetOr(base.estimatedPerMinuteLimit),
      warningThresholdPercent := config.warningThresholdPercent.GetOr(base.warningThresholdPercent),
      criticalThresholdPercent := config.criticalThresholdPercent.GetOr(base.criticalThresholdPercent))
  }

  /** With nothing stored and nothing configured, both readings give the defaults. */
  lemma NothingStoredGivesDefaults()
    ensures LoadSettings(NoConfig, None) == DefaultSettings
    ensures LoadSettingsAsWritten(NoConfig, None) == DefaultSettings
  {
  }

  /** Saved settings load back unchanged when the configuration is unset. */
  lemma SettingsRoundTrip(s: GlobalSettings)
    ensures LoadSettings(NoConfig, Some(SaveSettings(s))) == s
  {
  }

  /** As written, only the non-numeric settings survive a save and load. */
  lemma SettingsRoundTripAsWritten(s: GlobalSettings)
    ensures var loaded := LoadSettingsAsWritten(NoConfig, Some(SaveSettings(s)));
      loaded.trackingEnabled == s.trackingEnabled && loaded.detectionStrategies == s.detectionStrategies
      && loaded.version == s.version
    ensures LoadSettingsAsWritten(NoConfig, Some(SaveSettings(s))) == s <==>
      && s.estimatedDailyLimit == DefaultSettings.estimatedDailyLimit
      && s.estimatedPerMinuteLimit == DefaultSettings.estimatedPerMinuteLimit
      && s.warningThresholdPercent == DefaultSettings.warningThresholdPercent
      && s.criticalThresholdPercent == DefaultSettings.criticalThresholdPercent
  {
  }
}
