# Antigravity model usage tracker — a Dafny model of the core

This project models the core of the Antigravity model-usage extension for VS Code and proves
properties of the model. The extension counts requests that an AI coding assistant makes and
warns as the day's count nears an estimated daily limit. The modelled core is:

- **Usage tracker** (`UsageTracker`). It receives detections from every registered detection
  strategy. It drops a detection when an entry of the same source lies within 500 ms of it.
  Every other detection becomes a canonical usage record, which is appended to the in-memory
  log and handed to storage, and the tracker then broadcasts a fresh summary. A summary holds
  minute, hour, day and session counts plus a rate-limit status of ok, warning or critical.
- **Log-file detector** (`LogFileDetector`). It finds the newest session log, tails it by byte
  position (including log rotation and read failures), splits each new chunk into lines and
  turns every line matching the request pattern or the quota-exhaustion pattern into a
  detection.
- **Large-insertion heuristic** (`CompletionDetector`). A document edit that inserts at least
  five line breaks counts as a completion. At most one completion is emitted per 2000 ms
  cooldown.
- **Manual detector** (`ManualDetector`). One detection per click of the "log manual usage"
  command.
- **Storage manager** (`StorageManager`). It appends records and remembers the last complete
  rate-limit snapshot. Pruning summarises events older than seven days into per-day summaries
  (requests by model, by type, and the peak requests in one minute), keeps 90 days of
  summaries, migrates old stored data, and merges defaults, stored settings and configuration.

The remaining modules are shared support:

- `Wrappers` holds the `Option` type.
- `Strings` holds JavaScript `split`/`join` on a separator, substring tests and code-point
  lexicographic order.
- `Tally` holds insertion-ordered counters and groupings. These stand in for the source's
  `Record`/`Map` accumulators.
- `Types` holds the entities of `src/types.ts`.
- `EventLog` holds the time filters `filter(e => e.timestamp >= t)` and their complements.
- `Interplay` states what holds only when the components work together.

Timestamps are integer milliseconds. A stored day (`YYYY-MM-DD` in the source) is the UTC day
number `timestamp / 86400000`. Its string order agrees with numeric order for four-digit years.

Everything the code reads from the outside world becomes a parameter. This covers the clock
(`Date.now()`), local midnight, the 90-day summary cut-off, `crypto.randomUUID()`, the file
system's answers, the editor configuration, and a `LogEnv` record. `LogEnv` holds `new Date(..)`
on a log timestamp, the model-name regular expression, the seconds of the `rateLimits={..}`
fragment (after `JSON.parse` and `parseInt`), and UTF-8 decoding.

Points where the code's behaviour is easy to misread:

- **Completion cooldown.** `lastEmitTimestamp` moves only when an event is emitted; a
  qualifying edit that the cooldown suppresses does not restart the cooldown
  (`src/infrastructure/detection/completion-detector.ts:43-55`).
- **Clock reads in the completion detector.** `Date.now()` is read once per qualifying change,
  not once per notification. So one notification emits at most once only while its clock
  readings stay within 2000 ms of each other. See
  `CompletionDetector.SecondEmissionNeedsCooldownWithinNotification`.
- **Log timestamps.** Only a line with no leading timestamp uses `Date.now()`; a leading
  timestamp that `Date` cannot parse gives `NaN`. The model parses through an oracle that
  returns an integer.
- **Registration.** `src/extension.ts` registers only the manual and log-file detectors. The
  completion detector exists but is not wired in, so the lemmas that combine it with the
  tracker describe what happens if it is registered.

## Model

| member | source | states |
|---|---|---|
| UsageTracker.IsDuplicate | src/core/services/usage-tracker.service.ts:136-148 | A detection is a duplicate exactly when, scanning back from the newest entry, a same-source entry is reached before the first entry more than 500 ms away. |
| UsageTracker.DuplicateHasWitness | src/core/services/usage-tracker.service.ts:136-148 | Every dropped detection has an entry of the same source within 500 ms of it in the log. |
| UsageTracker.DuplicateOnOrderedLog | src/core/services/usage-tracker.service.ts:136-148 | The early exit loses nothing when the log is time-ordered and the detection is no older than the log. In that case a detection is a duplicate if and only if ANY same-source entry lies within 500 ms. |
| UsageTracker.SecondCloseSameSourceDropped | src/core/services/usage-tracker.service.ts:136-148 | Once a detection is recorded, a second one from the same source within 500 ms is dropped, whatever the log held before. |
| UsageTracker.DifferentSourcesBothKept | src/core/services/usage-tracker.service.ts:136-148 | A detection from a source with no entry in the log is kept, even right after another source's record. |
| UsageTracker.SnapshotOf | src/core/services/usage-tracker.service.ts:117-123 | A rate-limit hint becomes a snapshot only when all four fields are present, and then it carries those four values. |
| UsageTracker.Canonicalize | src/core/services/usage-tracker.service.ts:116-134 | The record keeps the detection's instant, source and token estimate. Its model is the hint or "unknown" and its type is unknown. It has a snapshot if and only if the hint is complete. |
| UsageTracker.CanonicalizeRedetect | src/core/services/usage-tracker.service.ts:116-134 | Canonicalisation keeps everything a record holds: turning a canonical record back into a detection and canonicalising it with the same id reproduces the record. |
| UsageTracker.PartialHintNoSnapshot | src/core/services/usage-tracker.service.ts:117-123 | A hint that lacks any of remaining, limit, resetAt or percentUsed never becomes a snapshot. |
| UsageTracker.PercentUsed | src/core/services/usage-tracker.service.ts:60-62 | With a positive limit, the percentage times the limit equals 100 times the day's count. Otherwise it is 0. It is never negative. |
| UsageTracker.Classify | src/core/services/usage-tracker.service.ts:64-69 | Critical if and only if the percentage reaches the critical threshold. Warning if and only if it is below critical but reaches warning. Ok if and only if it is below both. Never unknown. |
| UsageTracker.PercentAtLeast | src/core/services/usage-tracker.service.ts:60-69 | For a positive limit, the real-valued percentage reaches a threshold exactly when 100 times the count reaches the threshold times the limit. |
| UsageTracker.ClassifyMatchesCounts | src/core/services/usage-tracker.service.ts:60-69 | The status computed through the real-valued percentage equals an independent classification in integers only, for every count and every setting, including a non-positive limit. |
| UsageTracker.ComputeSummary | src/core/services/usage-tracker.service.ts:45-82 | The minute, hour and day counts are the numbers of log positions whose instant is at or after now − 60 s, now − 1 h and local midnight. The session count is the log's length, and minute ≤ hour ≤ session. The percentage used is that of the day count against the daily limit, and the status is the integer classification of the day count. The last timestamp is the newest entry's, and absent for an empty log. |
| UsageTracker.AllRecentCountsAgree | src/core/services/usage-tracker.service.ts:45-58 | When every entry is from the last minute and from today, all four window counts equal the log's length. |
| UsageTracker.GetRecentEvents | src/core/services/usage-tracker.service.ts:84-86 | The result is always a suffix of the log. For a positive count it has min(count, n) entries. A count of 0 gives the whole log, and a negative count gives all but the first −count entries. |
| UsageTracker.RecentEventsNest | src/core/services/usage-tracker.service.ts:84-86 | Asking for fewer recent events gives a suffix of what asking for more gives. |
| UsageTracker.RegisterStrategy | src/core/services/usage-tracker.service.ts:36-43 | Registering adds the strategy to the tracker's listeners and leaves the log alone. |
| UsageTracker.HandleDetectedEvent | src/core/services/usage-tracker.service.ts:104-114 | A duplicate changes nothing: nothing is stored and nothing is broadcast. Any other detection appends exactly its canonical record, hands that same record to storage, and (unless the tracker is disposed) broadcasts the summary of the grown log. That summary's session count includes the new record and its last timestamp is the detection's. |
| UsageTracker.Deliver | src/core/services/usage-tracker.service.ts:36-43 | A detection reaches the tracker only from a strategy it still listens to. |
| UsageTracker.Refresh | src/core/services/usage-tracker.service.ts:28-34 | The periodic broadcast happens until disposal, and it is the summary of the current log. |
| UsageTracker.Dispose | src/core/services/usage-tracker.service.ts:88-102 | Disposal drops every listener and stops broadcasts. The log is kept. |
| UsageTracker.NothingAfterDispose | src/core/services/usage-tracker.service.ts:88-102 | After disposal, no sequence of strategy firings changes the tracker or stores anything. |
| UsageTracker.HandlePreservesLogInvariant | src/core/services/usage-tracker.service.ts:104-148 | A log that is time-ordered and has no two same-source entries within 500 ms keeps both properties when an in-order detection is handled. |
| CompletionDetector.InsertedLines | src/infrastructure/detection/completion-detector.ts:34 | `split('\n').length - 1` is the number of line feeds the inserted text contains. |
| CompletionDetector.TokenEstimate | src/infrastructure/detection/completion-detector.ts:53 | The estimate is the least number of four-character tokens that covers the text. |
| CompletionDetector.CompletionEventAt | src/infrastructure/detection/completion-detector.ts:50-54 | A completion detection carries the clock reading, the completion source and the token estimate, with no model hint and no rate-limit hint. |
| CompletionDetector.EmitIfCooledDown | src/infrastructure/detection/completion-detector.ts:43-55 | It emits if and only if at least 2000 ms have passed since the last emission. A suppressed candidate leaves the state unchanged; an emission moves the last-emission instant to now. |
| CompletionDetector.ProcessChanges | src/infrastructure/detection/completion-detector.ts:33-40 | Every emission is the detection of some qualifying change, at that change's own clock reading. Emissions are at least 2000 ms after the previous emission and each other. The state ends at the last emission. No qualifying change means no emission and no state change. A first change that qualifies and comes 2000 ms after the last emission is emitted first. |
| CompletionDetector.ProcessChangesAppend | src/infrastructure/detection/completion-detector.ts:33-40 | Processing two runs of changes is processing the first, then the second from the state the first left. |
| CompletionDetector.ProcessChangesStep | src/infrastructure/detection/completion-detector.ts:33-55 | Change k adds exactly its own detection when it qualifies and comes at least 2000 ms after the last emission before it. Otherwise it adds nothing. |
| CompletionDetector.CooledDownCandidateEmitted | src/infrastructure/detection/completion-detector.ts:33-55 | Every qualifying change that comes at least 2000 ms after the emissions before it is emitted, right after them. |
| CompletionDetector.AnalyzeChanges | src/infrastructure/detection/completion-detector.ts:27-41 | Edits to documents that are not files are ignored entirely. Edits to files are processed change by change. |
| CompletionDetector.SecondEmissionNeedsCooldownWithinNotification | src/infrastructure/detection/completion-detector.ts:33-47 | One notification emits twice only if two of its own clock readings are at least 2000 ms apart. |
| CompletionDetector.Run | src/infrastructure/detection/completion-detector.ts:16-20 | Over any sequence of edit notifications, all emissions are completion detections spaced by the cooldown, and the state ends at the last one. The first notification's emissions open the run. |
| CompletionDetector.RunAppend | src/infrastructure/detection/completion-detector.ts:16-20 | A run over two blocks of notifications is the first block's run followed by the second's, from the state the first left. |
| CompletionDetector.RunContainsEachNotification | src/infrastructure/detection/completion-detector.ts:16-41 | Each notification's emissions appear in the run, contiguously and right after those of the notifications before it. No emission is lost. |
| CompletionDetector.EmissionsAtLeastCooldownApart | src/infrastructure/detection/completion-detector.ts:43-55 | The i-th and j-th emissions of a run are at least 2000·(j−i) ms apart, even if the clock goes backwards between edits. |
| ManualDetector.LogEvent | src/infrastructure/detection/manual-detector.ts:14-19 | A click yields a manual detection at the current instant, with no model, token or rate-limit hint. |
| LogFileDetector.ApiCallMinimumLength | src/infrastructure/detection/log-file-detector.ts:24 | A line shorter than the pattern's four fixed parts (57 characters) is never a request line. |
| LogFileDetector.ApiCallOfParts | src/infrastructure/detection/log-file-detector.ts:24 | Any line built from a timestamp, text without line terminators, `URL:`, whitespace, `https://`, more such text and `:streamGenerateContent` is a request line. |
| LogFileDetector.DocumentedTimestampFits | src/infrastructure/detection/log-file-detector.ts:198 | The documented log timestamp `2026-02-15 19:07:54.257` matches the leading-timestamp pattern. |
| LogFileDetector.DocumentedRequestLineMatches | src/infrastructure/detection/log-file-detector.ts:15-16 | The documented `streamGenerateContent` log line matches the request pattern. |
| LogFileDetector.StatusSpellingsMatch | src/infrastructure/detection/log-file-detector.ts:33 | Both `status=429` and `status:` followed by spaces and `429` match the exhaustion pattern. |
| LogFileDetector.FragmentInfo | src/infrastructure/detection/log-file-detector.ts:211-225 | A readable `rateLimits` fragment yields only a reset instant, `now + 1000·seconds`. Otherwise there is no hint. |
| LogFileDetector.Exhaust | src/infrastructure/detection/log-file-detector.ts:227-233 | Exhaustion sets remaining to 0 and percent used to 100. It keeps the fragment's reset instant and limit. |
| LogFileDetector.ParseLine | src/infrastructure/detection/log-file-detector.ts:193-236 | A line yields a detection if and only if it matches the request or the exhaustion pattern. The detection is a log-file detection with the model oracle's hint and no token estimate. Its instant is the leading timestamp's, or now when the line has none. An exhausted line's hint is the fragment's with remaining 0 and 100 % used, so it keeps the fragment's reset instant. Otherwise the hint is the fragment's. The limit is never set. |
| LogFileDetector.ParseLines | src/infrastructure/detection/log-file-detector.ts:184-186 | Each line yields at most one detection, and all detections are log-file detections. A single line yields exactly its own detection, if any. Every line's detection is in the batch's result, and every result is some line's detection. |
| LogFileDetector.ParseLinesAppend | src/infrastructure/detection/log-file-detector.ts:184-186 | Parsing lines is compositional: the detections of two blocks of lines are the first block's followed by the second's. |
| LogFileDetector.QuietLinesYieldNothing | src/infrastructure/detection/log-file-detector.ts:193-196 | Lines matching neither pattern produce no detection. |
| LogFileDetector.Poll | src/infrastructure/detection/log-file-detector.ts:156-191 | A failed stat or read resets the position to 0 and reads nothing. An unchanged size reads nothing. Growth reads exactly the bytes after the old position. A shrink is a rotation, which re-reads the whole file. A chunk read is never empty. |
| LogFileDetector.Tick | src/infrastructure/detection/log-file-detector.ts:156-191 | One timer tick keeps the watched file. It moves the position as the poll says, produces nothing when no chunk was read, and produces only log-file detections. With no watched file it does nothing. |
| LogFileDetector.TickParsesChunkLines | src/infrastructure/detection/log-file-detector.ts:181-186 | A chunk that decodes to some lines joined by line feeds yields exactly those lines' detections, in order. |
| LogFileDetector.StartTailing | src/infrastructure/detection/log-file-detector.ts:133-154 | Tailing watches the new path from its current end, or from the start when stat fails. |
| LogFileDetector.StartThenUnchangedTick | src/infrastructure/detection/log-file-detector.ts:141-171 | Content present when tailing starts is never reported: a tick before the file changes reads nothing. |
| LogFileDetector.AppendOnlyReadsEachByteOnce | src/infrastructure/detection/log-file-detector.ts:161-179 | While the file is only appended to, successive polls read every new byte exactly once and in order. The chunks concatenate to everything after the starting position. |
| LogFileDetector.RotationRereadsFromStart | src/infrastructure/detection/log-file-detector.ts:164-179 | A non-empty file shorter than the read position is read again from its first byte. |
| LogFileDetector.CandidatePath | src/infrastructure/detection/log-file-detector.ts:119-122 | A candidate log path always ends in `Antigravity.log`. |
| LogFileDetector.CandidatePassesWatcher | src/infrastructure/detection/log-file-detector.ts:71-76 | Every path the startup search would try is also accepted by the watcher for newly created logs. |
| LogFileDetector.OnLogFileCreated | src/infrastructure/detection/log-file-detector.ts:71-76 | A created file is tailed if and only if its path contains `google.antigravity` and ends in `Antigravity.log`. Otherwise nothing changes. |
| LogFileDetector.FindLatestLogFile | src/infrastructure/detection/log-file-detector.ts:110-131 | The result is the log of the session directory with the greatest name among those that have a log. It is none when the directory cannot be listed or no session has a log. |
| LogFileDetector.LatestSessionUnique | src/infrastructure/detection/log-file-detector.ts:113-126 | The latest session with a log is unique, so the search's answer does not depend on listing order. |
| StorageManager.AppendEvent | src/infrastructure/storage/storage-manager.ts:80-87 | The record joins the end of the log. A record with a snapshot makes it the last known rate limit; any other record leaves the last known rate limit and the summaries alone. |
| StorageManager.AppendAllKeepsLatestSnapshot | src/infrastructure/storage/storage-manager.ts:80-87 | After appending any sequence of records, the last known rate limit is the newest snapshot among them, or the previous value when none had one. |
| StorageManager.CountTypes | src/infrastructure/storage/storage-manager.ts:111-117 | Each type's count is the number of pruned records of that type, and the four counts add up to the day's total. |
| StorageManager.Summarize | src/infrastructure/storage/storage-manager.ts:111-136 | A daily summary's total is the number of its records. Its per-model counts have distinct keys, add up to the total and count each model exactly. Its per-type counts are exact. Its peak is the largest number of its records in one minute: it bounds every minute, is attained, and is at most the total. |
| StorageManager.AddSummaries | src/infrastructure/storage/storage-manager.ts:105-137 | Existing summaries stay as a prefix. Every pruned day ends up with a summary. A day that had none gets the summary of exactly its records. Every new summary comes from such a day. Distinct dates stay distinct. |
| StorageManager.OldGroups | src/infrastructure/storage/storage-manager.ts:93-103 | Pruned records are grouped by UTC day with distinct days. Each group is exactly that day's pruned records in log order, and every pruned record is in a group. |
| StorageManager.PruneOldData | src/infrastructure/storage/storage-manager.ts:89-147 | Pruning keeps exactly the records from the last seven days, in order. The summaries are the existing ones plus those of newly pruned days, filtered to those dated on or after the cut-off. The version and last known rate limit are unchanged. |
| StorageManager.PruneKeepsRecentEvents | src/infrastructure/storage/storage-manager.ts:91-94 | A record survives pruning if and only if it is no older than seven days. |
| StorageManager.PrunedDayIsSummarised | src/infrastructure/storage/storage-manager.ts:96-143 | A pruned record whose day had no summary and is inside the retention window is accounted for: that day's summary of all its pruned records is kept. |
| StorageManager.ExistingSummariesKept | src/infrastructure/storage/storage-manager.ts:105-143 | An existing summary inside the retention window is never replaced or dropped. |
| StorageManager.PruneKeepsDatesDistinct | src/infrastructure/storage/storage-manager.ts:105-143 | If no two summaries share a date before pruning, none do after. |
| StorageManager.PruneIdempotent | src/infrastructure/storage/storage-manager.ts:89-147 | Pruning twice with the same clock is the same as pruning once. |
| StorageManager.KeepFromMembers | src/infrastructure/storage/storage-manager.ts:139-143 | Exactly the summaries dated on or after the cut-off survive. |
| StorageManager.KeepFromIdempotent | src/infrastructure/storage/storage-manager.ts:139-143 | Filtering summaries by the cut-off twice is the same as once. |
| StorageManager.ClearAllData | src/infrastructure/storage/storage-manager.ts:149-152 | Clearing leaves the current schema version, no records, no summaries and no last known rate limit. |
| StorageManager.Migrate | src/infrastructure/storage/storage-manager.ts:166-174 | Current data is returned untouched. Data without a version or with an older one moves to version 1, its missing lists become empty, and its last known rate limit is kept. |
| StorageManager.MigrateIdempotent | src/infrastructure/storage/storage-manager.ts:166-174 | Migrating twice is migrating once, and stored current data survives migration unchanged. |
| StorageManager.MigratedIsComplete | src/infrastructure/storage/storage-manager.ts:166-174 | Migrated old data always has a version, a record list and a summary list. |
| StorageManager.LoadUsageData | src/infrastructure/storage/storage-manager.ts:42-53 | Cached data wins. Otherwise stored data is migrated, and with nothing stored the defaults are used. |
| StorageManager.Spread | src/infrastructure/storage/storage-manager.ts:65-67 | Each of the seven stored settings overrides its default where present, and without stored settings the defaults stand. |
| StorageManager.LoadSettingsAsWritten | src/infrastructure/storage/storage-manager.ts:60-74 | As written, the four numeric settings come from the configuration or the defaults, never from storage. The version, the flag and the strategy list come from storage or the defaults. |
| StorageManager.SavedDailyLimitIgnoredAsWritten | src/infrastructure/storage/storage-manager.ts:60-74 | As written, a saved daily limit of 2000 loads back as 1500 when the configuration does not set it. |
| StorageManager.SettingsRoundTripAsWritten | src/infrastructure/storage/storage-manager.ts:60-78 | As written, saving and reloading keeps the tracking flag, the strategies and the version. It returns the saved settings if and only if their four numeric fields equal the defaults. |
| StorageManager.LoadSettings | src/infrastructure/storage/storage-manager.ts:60-74 | Corrected: a numeric setting present in the configuration wins. A numeric setting the configuration leaves unset takes the stored value, or else the default. The version, the tracking flag and the strategies come from storage, or else the defaults. |
| StorageManager.SettingsRoundTrip | src/infrastructure/storage/storage-manager.ts:60-78 | Corrected: with no configuration, loading what was saved returns exactly the saved settings. |
| StorageManager.NothingStoredGivesDefaults | src/infrastructure/storage/storage-manager.ts:18-28 | With nothing stored or configured, both loaders give the defaults: 70 %, 90 %, 1500 a day, 30 a minute, tracking on, three strategies. |
| EventLog.Since | src/core/services/usage-tracker.service.ts:55-57 | The window filter keeps only records at or after the cut-off. |
| EventLog.SinceCount | src/core/services/usage-tracker.service.ts:55-57 | The filter's length is the number of log positions whose instant is at or after the cut-off. |
| EventLog.SinceMembers | src/infrastructure/storage/storage-manager.ts:94 | A record is kept if and only if it is in the log and at or after the cut-off. |
| EventLog.BeforeMembers | src/infrastructure/storage/storage-manager.ts:93 | A record is pruned if and only if it is in the log and before the cut-off. |
| EventLog.SinceBeforePartition | src/infrastructure/storage/storage-manager.ts:93-94 | Kept and pruned records together are exactly as many as the log. |
| EventLog.SinceAntitone | src/core/services/usage-tracker.service.ts:49-57 | A later window start never counts more records. This is why the minute count is at most the hour count. |
| EventLog.SinceKeepsAll | src/core/services/usage-tracker.service.ts:55-57 | When every record is at or after the cut-off, the filter keeps the whole log. |
| Strings.Split | src/infrastructure/detection/log-file-detector.ts:182 | Splitting yields at least one piece and no piece contains the separator. |
| Strings.SplitPieceCount | src/infrastructure/detection/completion-detector.ts:34 | Splitting on a character yields one more piece than the character's occurrences. |
| Strings.JoinSplit | src/infrastructure/detection/log-file-detector.ts:182 | Joining the pieces of a split with the separator restores the text. |
| Strings.SplitJoin | src/infrastructure/detection/log-file-detector.ts:182 | Splitting pieces joined by a separator they do not contain restores the pieces. |
| Strings.LexLeTotal | src/infrastructure/detection/log-file-detector.ts:113-117 | Any two directory names are ordered one way or the other by the sort. |
| Strings.LexLeTransitive | src/infrastructure/detection/log-file-detector.ts:113-117 | The name order is transitive. |
| Strings.LexLeAntisymmetric | src/infrastructure/detection/log-file-detector.ts:113-117 | Two names ordered both ways are equal. |
| Tally.CountAll | src/infrastructure/storage/storage-manager.ts:114-115 | Counting keys gives each key exactly its number of occurrences, distinct keys, positive counts and a total equal to the number of keys counted. |
| Tally.PeakIsMostFrequent | src/infrastructure/storage/storage-manager.ts:119-127 | The maximum over the minute buckets bounds every minute's count, is attained by some minute (for a non-empty day), and is at most the number of requests. |
| Tally.GroupAll | src/infrastructure/storage/storage-manager.ts:97-103 | Filing values one at a time into a map from key to list groups each value exactly under its key, in order, with distinct keys and no empty group. |
| Interplay.CooledDownCompletionNotDuplicate | src/core/services/usage-tracker.service.ts:136-148 | The 2000 ms completion cooldown is wider than the 500 ms dedup window. So a completion a cooldown after every logged completion is never taken for a duplicate. |
| Interplay.FeedEmissions | src/core/services/usage-tracker.service.ts:104-114 | Handing detections to the tracker one by one appends exactly what it stores and leaves its listeners and disposal alone. |
| Interplay.SpacedCompletionsAllStored | src/core/services/usage-tracker.service.ts:104-148 | Completion emissions spaced by the cooldown are all stored, in order, as their canonical records. Afterwards no logged completion is later than the last emission. |
| Interplay.FeedCompletionKeepsInvariant | src/infrastructure/detection/completion-detector.ts:27-55 | If the completion detector were registered, the tracker would never drop one of its emissions. Every notification would add exactly the canonical records of its emissions, in order, and every logged completion would stay no later than the detector's last emission. |
| Interplay.LogFileEventsLeaveRateLimitAlone | src/infrastructure/detection/log-file-detector.ts:211-233 | Log-file detections never carry a complete hint, so their records have no snapshot and storing them never changes the last known rate limit. |
| Interplay.ManualDoubleClickCollapses | src/infrastructure/detection/manual-detector.ts:14-19 | Two manual clicks within 500 ms of each other record only one event. |
| Interplay.DefaultStatusThresholds | src/infrastructure/storage/storage-manager.ts:18-28 | Under the default settings, the status turns to warning at 1050 requests in a day and to critical at 1350. |

## Left out

- `discoverLogDirectory` is left out. It only picks a platform-specific directory under the home directory and tests that it exists, and `os`/`path` lie outside the model.
- The file-system watcher, the 2000 ms tail timer, the 10 s refresh timer and the 5 s debounced save are left out. Each timer or watcher callback is modelled as one step (`Tick`, `Refresh`, `OnLogFileCreated`), and saving is the value handed to storage.
- Stores are left out: `Memento`, the configuration API and `saveSettings`' write are values passed in and returned.
- `vscode.EventEmitter` is left out. Subscriptions are a set of strategy ids plus a disposed flag, and a broadcast is a returned summary.
- UTF-8 decoding is an oracle (`LogEnv.decode`). Each chunk is split on line feeds and parsed on its own (`Tick`), so a line split across two reads is parsed as two separate pieces, exactly as the code does.
- `new Date(..)` on a log timestamp is an oracle (`LogEnv.parseInstant`) that returns an integer. The code's `NaN` for an impossible date is not modelled.
- `MODEL_PATTERN` is an oracle (`LogEnv.modelHint`) because it is a case-insensitive regular expression with backtracking.
- The `rateLimits={..}` fragment is read through an oracle (`LogEnv.rateLimitSeconds`). The oracle stands in for `JSON.parse`, taking the first value and `parseInt`. A non-numeric seconds string gives `resetAt: NaN` in the code; in the model it gives no hint.
- Separate `Date.now()` calls inside one `parseLine` are modelled as one `now`.
- LexLeTotal: names are compared by Unicode code point, while JavaScript's `sort()` compares UTF-16 code units. The two orders differ only for names that mix characters above U+FFFF with characters from U+E000 to U+FFFF.
- `path.join` is modelled as concatenation with `/`. Its normalisation of `.`/`..` segments and of Windows separators is not modelled.
- CompletionDetector.TokenEstimate: `text.length` counts UTF-16 code units, while the model counts characters. The two differ for characters above U+FFFF.
- Summary dates are day numbers rather than `YYYY-MM-DD` strings, which agrees only for years 0000 to 9999.
- The 90-day summary cut-off is a parameter (`PruneClock.summaryCutoffDay`). The code computes it in local time with `setDate(getDate() - 90)`, then formats it as a UTC date.
- Local midnight for the day count is a parameter (`Clock.dayStart`).
- The `byModel` record of a summary is an insertion-ordered list of pairs. JavaScript lists integer-like keys first, but a model name is either `unknown` or a `MODEL_PATTERN` match, which always contains letters, so the listing order is the insertion order.
- StorageManager.Summarize: the code counts models in a plain object literal (`src/infrastructure/storage/storage-manager.ts:111-115`), so names inherited from `Object.prototype` are miscounted. `MODEL_PATTERN` is case-insensitive and accepts `hasOwnProperty`, `isPrototypeOf` and `__proto__`, since each contains "pro" after at least one character. For `hasOwnProperty` and `isPrototypeOf`, `(byModel[m] || 0) + 1` concatenates the inherited function with 1 into a string. For `__proto__`, the string assigned is silently ignored, so that model has no count. The model's counts are exact for every name.
- Types.GlobalSettings: the thresholds and limits are integers, while the code reads them as `number` through `config.get<number>` (`src/infrastructure/storage/storage-manager.ts:69-72`), so fractional values such as 72.5 are accepted there. The integer classification `UsageTracker.StatusByCounts` relies on integer settings.
- UsageTracker.PercentUsed: the percentage is an exact real, while the code computes `(day / limit) * 100` in IEEE doubles. The two can disagree at a threshold: with a limit of 100 and a warning threshold of 29, `(29 / 100) * 100` is 28.999999999999996 in doubles, so the code stays below the threshold at 29 requests, while the model reaches it.
- Record ids (`crypto.randomUUID()`) are parameters. Nothing in the core depends on their value.
- Output-channel logging is left out.
- The status bar, the dashboard and command registration are outside the core and left out.

## Findings

| source | as written | input that shows it | evidently intended | confidence | as-written member | corrected member |
|---|---|---|---|---|---|---|
| src/infrastructure/storage/storage-manager.ts:60-74 | The four numeric settings are taken from `config.get(key, default)` after the stored settings have been spread. The stored numeric values are therefore always overwritten, by the configuration or by the built-in default. | `saveSettings` with `estimatedDailyLimit` 2000 and no `antigravity.estimatedDailyLimit` configured; `loadSettings` then returns 1500. | The configuration overrides stored settings only where it is set, as the comment says. Otherwise the stored value wins over the default, so that the dashboard's `updateSettings` (`src/presentation/components/dashboard/dashboard.component.ts:86-93`) persists. | medium, not executed | StorageManager.SavedDailyLimitIgnoredAsWritten | StorageManager.SettingsRoundTrip |
