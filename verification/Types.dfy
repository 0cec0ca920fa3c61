/**
 * The records exchanged between the detectors, the usage tracker and storage
 * (src/types.ts). Instants are integer milliseconds since the epoch; calendar
 * dates are UTC day numbers (`ts / 86400000`), so comparing `YYYY-MM-DD` keys
 * becomes comparing integers.
 */
module Types {
  import opened Wrappers
  import opened Tally

  /** Milliseconds since the epoch (`Date.now()`). */
  type Millis = int

  /** A UTC calendar day, numbered from 1970-01-01 = 0. */
  type Day = int

  const MillisPerMinute: int := 60_000
  const MillisPerHour: int := 3_600_000
  const MillisPerDay: int := 86_400_000

  /** The UTC calendar day containing `ts` (`new Date(ts).toISOString().slice(0, 10)`). */
  function DayOf(ts: Millis): Day {
    ts / MillisPerDay
  }

  /** The minute bucket of `ts` (`Math.floor(ts / 60000)`). */
  function MinuteOf(ts: Millis): int {
    ts / MillisPerMinute
  }

  datatype DetectionSource = OutputChannel | LogFile | CompletionEvent | InlineChat | Manual

  datatype UsageType = Completion | Chat | InlineEdit | UnknownType

  datatype RateLimitStatus = Ok | Warning | Critical | UnknownStatus

  /** A rate-limit observation whose fields may each be missing (`Partial<RateLimitSnapshot>`). */
  datatype PartialRateLimit = PartialRateLimit(
    remaining: Option<int>,
    limit: Option<int>,
    resetAt: Option<Millis>,
    percentUsed: Option<real>)

  const NoRateLimitFields := PartialRateLimit(None, None, None, None)

  datatype RateLimitSnapshot = RateLimitSnapshot(
    remaining: int,
    limit: int,
    resetAt: Millis,
    percentUsed: real)

  /** What a detection strategy reports; consumed at once by the tracker. */
  datatype DetectedEvent = DetectedEvent(
    timestamp: Millis,
    source: DetectionSource,
    modelHint: Option<string>,
    tokenEstimate: Option<int>,
    rateLimitInfo: Option<PartialRateLimit>)

  /** The canonical, immutable record of one accepted usage. */
  datatype UsageEvent = UsageEvent(
    id: string,
    timestamp: Millis,
    model: string,
    usageType: UsageType,
    source: DetectionSource,
    tokenEstimate: Option<int>,
    rateLimitSnapshot: Option<RateLimitSnapshot>)

  /** `Record<UsageType, number>`. */
  datatype TypeCounts = TypeCounts(completion: nat, chat: nat, inlineEdit: nat, unknown: nat)

  /** The aggregate that replaces the raw events of one pruned day. */
  datatype DailySummary = DailySummary(
    date: Day,
    totalRequests: nat,
    byModel: Tally<string>,
    byType: TypeCounts,
    peakRequestsPerMinute: nat)

  datatype PersistedUsageData = PersistedUsageData(
    version: int,
    events: seq<UsageEvent>,
    dailySummaries: seq<DailySummary>,
    lastKnownRateLimit: Option<RateLimitSnapshot>)

  datatype GlobalSettings = GlobalSettings(
    version: int,
    warningThresholdPercent: int,
    criticalThresholdPercent: int,
    estimatedDailyLimit: int,
    estimatedPerMinuteLimit: int,
    trackingEnabled: bool,
    detectionStrategies: seq<DetectionSource>)

  /** Rolling-window view of the event log, recomputed on demand. */
  datatype UsageSummary = UsageSummary(
    currentMinuteCount: nat,
    currentHourCount: nat,
    currentDayCount: nat,
    sessionCount: nat,
    rateLimitStatus: RateLimitStatus,
    rateLimitPercentUsed: real,
    lastEventTimestamp: Option<Millis>)
}
