/**
 * The manual strategy (src/infrastructure/detection/manual-detector.ts): the user's
 * "log a request" command reports a bare detection stamped with the current time.
 */
module ManualDetector {
  import opened Wrappers
  import opened Types

  /** `logEvent`: a detection with only a timestamp and the manual source. */
  function LogEvent(now: Millis): (d: DetectedEvent)
    ensures d.timestamp == now && d.source == Manual
    ensures d.modelHint.None? && d.tokenEstimate.None? && d.rateLimitInfo.None?
  {
    DetectedEvent(now, Manual, None, None, None)
  }
}
