/**
 * The log-file strategy (src/infrastructure/detection/log-file-detector.ts): it tails
 * the IDE's extension log, turns each line that records a model request or a
 * quota rejection into a detection, picks the newest session's log at start-up and
 * switches to any new log the directory watcher reports.
 *
 * The file system, the clock, UTF-8 decoding, `Date` parsing, the model-name regex
 * and the JSON rate-limit fragment are parameters (`LogEnv`, `FileProbe`); the two
 * patterns that decide whether a line counts at all are stated exactly.
 */
module LogFileDetector {
  import opened Wrappers
  import opened Types
  import opened Strings

  type Byte = bv8

  // ---------------------------------------------------------------------------
  // The two line patterns
  // ---------------------------------------------------------------------------

  /** `\d{4}-\d{2}-\d{2} \d{2}:\d{2}:\d{2}\.\d{3}`, with `D` standing for a digit. */
  const TimestampShape: string := "DDDD-DD-DD DD:DD:DD.DDD"
  const TimestampLength: nat := 23

  const UrlLabel: string := "URL:"
  const HttpsPrefix: string := "https://"
  const StreamMethod: string := ":streamGenerateContent"
  const ResourceExhausted: string := "RESOURCE_EXHAUSTED"
  const StatusLabel: string := "status"
  const TooManyRequests: string := "429"

  /** The characters a regular-expression `.` does not match. */
  predicate IsLineTerminator(c: char) {
    c in {'\n', '\r', '\U{2028}', '\U{2029}'}
  }

  /** `.*` can span `s[from..to]`. */
  predicate NoTerminator(s: string, from: int, to: int)
    requires 0 <= from <= to <= |s|
  {
    forall k | from <= k < to :: !IsLineTerminator(s[k])
  }

  predicate FitsShape(c: char, shape: char) {
    if shape == 'D' then IsDigit(c) else c == shape
  }

  /** A `YYYY-MM-DD hh:mm:ss.mmm` timestamp starts at index `i`. */
  predicate TimestampAt(line: string, i: int) {
    0 <= i && i + TimestampLength <= |line|
    && forall m | 0 <= m < TimestampLength :: FitsShape(line[i + m], TimestampShape[m])
  }

  /**
   * The API-call pattern matches with its timestamp at `i`, `URL:` at `j`, `https://` at `l`
   * and `:streamGenerateContent` at `k`.
   */
  predicate ApiCallAt(line: string, i: int, j: int, l: int, k: int) {
    && TimestampAt(line, i)
    && i + TimestampLength <= j && ContainsAt(line, UrlLabel, j)
    && NoTerminator(line, i + TimestampLength, j)
    && j + |UrlLabel| <= l && ContainsAt(line, HttpsPrefix, l)
    && AllSpace(line, j + |UrlLabel|, l)
    && l + |HttpsPrefix| <= k && ContainsAt(line, StreamMethod, k)
    && NoTerminator(line, l + |HttpsPrefix|, k)
  }

  /** `API_CALL_PATTERN.test(line)`: a logged `streamGenerateContent` request. */
  predicate IsApiCall(line: string) {
    exists i, j, l, k | 0 <= i <= j <= l <= k <= |line| :: ApiCallAt(line, i, j, l, k)
  }

  /** `status`, then `=` or `:`, optional whitespace and `429`, with `status` at `j` and `429` at `l`. */
  predicate StatusCodeAt(line: string, j: int, l: int) {
    && ContainsAt(line, StatusLabel, j)
    && ContainsAt(line, TooManyRequests, l)
    && j + |StatusLabel| + 1 <= l
    && line[j + |StatusLabel|] in {'=', ':'}
    && AllSpace(line, j + |StatusLabel| + 1, l)
  }

  /** `EXHAUSTED_PATTERN.test(line)`: a quota rejection. */
  predicate IsExhausted(line: string) {
    Contains(line, ResourceExhausted)
    || exists j, l | 0 <= j <= l <= |line| :: StatusCodeAt(line, j, l)
  }

  /** Every match of the API-call pattern needs room for its four fixed parts. */
  lemma ApiCallMinimumLength(line: string)
    requires |line| < TimestampLength + |UrlLabel| + |HttpsPrefix| + |StreamMethod|
    ensures !IsApiCall(line)
  {
    forall i, j, l, k | 0 <= i <= j <= l <= k <= |line| ensures !ApiCallAt(line, i, j, l, k) {
    }
  }

  lemma NoTerminatorIn(a: string, m: string, b: string)
    requires forall c | c in m :: !IsLineTerminator(c)
    ensures NoTerminator(a + m + b, |a|, |a| + |m|)
  {
    var s := a + m + b;
    forall x | |a| <= x < |a| + |m| ensures !IsLineTerminator(s[x]) {
      assert s[x] == m[x - |a|];
    }
  }

  lemma AllSpaceIn(a: string, m: string, b: string)
    requires forall c | c in m :: IsJsSpace(c)
    ensures AllSpace(a + m + b, |a|, |a| + |m|)
  {
    var s := a + m + b;
    forall x | |a| <= x < |a| + |m| ensures IsJsSpace(s[x]) {
      assert s[x] == m[x - |a|];
    }
  }

  lemma TimestampAtStart(ts: string, rest: string)
    requires TimestampAt(ts, 0)
    ensures TimestampAt(ts + rest, 0)
  {
    var s := ts + rest;
    forall m | 0 <= m < TimestampLength ensures s[m] == ts[m] {
    }
  }

  /**
   * A line matches when it is a timestamp, any text, `URL:`, whitespace, `https://`, any
   * text and `:streamGenerateContent`, in that order.
   */
  lemma ApiCallOfParts(ts: string, info: string, space: string, host: string)
    requires TimestampAt(ts, 0) && |ts| == TimestampLength
    requires forall c | c in info :: !IsLineTerminator(c)
    requires forall c | c in host :: !IsLineTerminator(c)
    requires forall c | c in space :: IsJsSpace(c)
    ensures IsApiCall(ts + info + UrlLabel + space + HttpsPrefix + host + StreamMethod)
  {
    var p1 := ts + info;
    var p2 := p1 + UrlLabel;
    var p3 := p2 + space;
    var p4 := p3 + HttpsPrefix;
    var p5 := p4 + host;
    var line := p5 + StreamMethod;
    PrefixAgrees(p5, line);
    PrefixAgrees(p4, p5);
    PrefixAgrees(p3, p4);
    PrefixAgrees(p2, p3);
    PrefixAgrees(p1, p2);
    PrefixAgrees(ts, p1);
    assert TimestampAt(line, 0) by {
      forall m | 0 <= m < TimestampLength ensures line[m] == ts[m] {
        assert line[m] == p1[m];
      }
    }
    assert NoTerminator(line, |ts|, |p1|) by {
      forall x | |ts| <= x < |p1| ensures line[x] == info[x - |ts|] {
        assert line[x] == p1[x];
      }
    }
    assert ContainsAt(line, UrlLabel, |p1|) by {
      assert line[|p1|..|p2|] == p2[|p1|..|p2|];
    }
    assert AllSpace(line, |p2|, |p3|) by {
      forall x | |p2| <= x < |p3| ensures line[x] == space[x - |p2|] {
        assert line[x] == p3[x];
      }
    }
    assert ContainsAt(line, HttpsPrefix, |p3|) by {
      assert line[|p3|..|p4|] == p4[|p3|..|p4|];
    }
    assert NoTerminator(line, |p4|, |p5|) by {
      forall x | |p4| <= x < |p5| ensures line[x] == host[x - |p4|] {
        assert line[x] == p5[x];
      }
    }
    assert ContainsAt(line, StreamMethod, |p5|) by {
      assert line[|p5|..] == StreamMethod;
    }
    assert ApiCallAt(line, 0, |p1|, |p3|, |p5|);
  }

  /** A string agrees with every string it is a prefix of, character by character and slice by slice. */
  lemma PrefixAgrees(s: string, line: string)
    requires s <= line
    ensures forall x :: 0 <= x < |s| ==> line[x] == s[x]
    ensures forall i, j :: 0 <= i <= j <= |s| ==> line[i..j] == s[i..j]
  {
  }

  lemma DocumentedTimestampFits()
    ensures TimestampAt("2026-02-15 19:07:54.257", 0)
  {
    var ts := "2026-02-15 19:07:54.257";
    forall m | 0 <= m < TimestampLength ensures FitsShape(ts[m], TimestampShape[m]) {
    }
  }

  /** The request line quoted in the detector's own documentation is recognised. */
  lemma DocumentedRequestLineMatches()
    ensures IsApiCall("2026-02-15 19:07:54.257" + " [info] " + UrlLabel + " " + HttpsPrefix
                      + "daily-cloudcode-pa.googleapis.com/v1internal" + StreamMethod)
  {
    DocumentedTimestampFits();
    var host := "daily-cloudcode-pa.googleapis.com/v1internal";
    assert forall c | c in host :: !IsLineTerminator(c) by {
      forall x | 0 <= x < |host| ensures !IsLineTerminator(host[x]) {
      }
    }
    assert forall c | c in " [info] " :: !IsLineTerminator(c);
    ApiCallOfParts("2026-02-15 19:07:54.257", " [info] ", " ", host);
  }

  /** Both spellings of an HTTP 429 status count as exhaustion. */
  lemma StatusSpellingsMatch()
    ensures IsExhausted("status=429") && IsExhausted("status:  429")
  {
    assert StatusCodeAt("status=429", 0, 7);
    assert StatusCodeAt("status:  429", 0, 9);
  }

  // ---------------------------------------------------------------------------
  // One line to one detection
  // ---------------------------------------------------------------------------

  /**
   * What a line's meaning depends on beyond the two patterns: the clock, `new Date(..)`
   * on the 23-character timestamp, the model-name match, the seconds of the first
   * `rateLimits={..}` entry (None when absent, malformed or not a string), and UTF-8
   * decoding of the bytes read.
   */
  datatype LogEnv = LogEnv(
    now: Millis,
    parseInstant: string -> Millis,
    modelHint: string -> Option<string>,
    rateLimitSeconds: string -> Option<int>,
    decode: seq<Byte> -> string)

  /** The rate-limit fields a `rateLimits={..}` fragment yields: a reset instant, nothing else. */
  function FragmentInfo(line: string, env: LogEnv): (info: Option<PartialRateLimit>)
    ensures info.Some? <==> env.rateLimitSeconds(line).Some?
    ensures info.Some? ==> info.value == NoRateLimitFields.(resetAt := Some(env.now + env.rateLimitSeconds(line).value * 1000))
  {
    match env.rateLimitSeconds(line)
    case None => None
    case Some(seconds) => Some(NoRateLimitFields.(resetAt := Some(env.now + seconds * 1000)))
  }

  /** `{...info, remaining: 0, percentUsed: 100}`: exhaustion overrides two fields, keeps the rest. */
  function Exhaust(info: Option<PartialRateLimit>): (p: PartialRateLimit)
    ensures p.remaining == Some(0) && p.percentUsed == Some(100.0)
    ensures info.Some? ==> p.limit == info.value.limit && p.resetAt == info.value.resetAt
    ensures info.None? ==> p.limit.None? && p.resetAt.None?
  {
    info.GetOr(NoRateLimitFields).(remaining := Some(0), percentUsed := Some(100.0))
  }

  /** `parseLine`: the detection one log line produces, if any. */
  function ParseLine(line: string, env: LogEnv): (r: Option<DetectedEvent>)
    ensures r.Some? <==> IsApiCall(line) || IsExhausted(line)
    ensures r.Some? ==> r.value.source == LogFile && r.value.tokenEstimate.None?
    ensures r.Some? ==> r.value.modelHint == env.modelHint(line)
    ensures r.Some? && TimestampAt(line, 0) ==> r.value.timestamp == env.parseInstant(line[..TimestampLength])
    ensures r.Some? && !TimestampAt(line, 0) ==> r.value.timestamp == env.now
    ensures r.Some? && IsExhausted(line) ==>
      && r.value.rateLimitInfo.Some?
      && r.value.rateLimitInfo.value.remaining == Some(0)
      && r.value.rateLimitInfo.value.percentUsed == Some(100.0)
    ensures r.Some? && IsExhausted(line) ==> r.value.rateLimitInfo == Some(Exhaust(FragmentInfo(line, env)))
    ensures r.Some? && !IsExhausted(line) ==> r.value.rateLimitInfo == FragmentInfo(line, env)
    ensures r.Some? && r.value.rateLimitInfo.Some? ==> r.value.rateLimitInfo.value.limit.None?
  {
    if !IsApiCall(line) && !IsExhausted(line) then None
    else
      var timestamp := if TimestampAt(line, 0) then env.parseInstant(line[..TimestampLength]) else env.now;
      var fragment := FragmentInfo(line, env);
      var info := if IsExhausted(line) then Some(Exhaust(fragment)) else fragment;
      Some(DetectedEvent(timestamp, LogFile, env.modelHint(line), None, info))
  }

  /** The detections of a batch of lines, in line order. */
  function ParseLines(lines: seq<string>, env: LogEnv): (r: seq<DetectedEvent>)
    ensures |r| <= |lines|
    ensures forall i :: 0 <= i < |r| ==> r[i].source == LogFile
    ensures |lines| == 1 ==> r == (if ParseLine(lines[0], env).Some? then [ParseLine(lines[0], env).value] else [])
    ensures forall i | 0 <= i < |lines| && ParseLine(lines[i], env).Some? :: ParseLine(lines[i], env).value in r
    ensures forall e | e in r :: exists i | 0 <= i < |lines| :: ParseLine(lines[i], env) == Some(e)
    decreases |lines|
  {
    if |lines| == 0 then []
    else
      var init := ParseLines(lines[..|lines| - 1], env);
      match ParseLine(lines[|lines| - 1], env)
      case None => init
      case Some(e) => init + [e]
  }

  /** Parsing a batch is parsing its parts: where a batch is split does not matter when whole lines are split. */
  lemma {:induction false} ParseLinesAppend(a: seq<string>, b: seq<string>, env: LogEnv)
    ensures ParseLines(a + b, env) == ParseLines(a, env) + ParseLines(b, env)
    decreases |b|
  {
    if |b| > 0 {
      var b' := b[..|b| - 1];
      assert (a + b)[..|a + b| - 1] == a + b';
      assert (a + b)[|a + b| - 1] == b[|b| - 1];
      ParseLinesAppend(a, b', env);
    } else {
      assert a + b == a;
    }
  }

  /** A batch with no request or rejection line yields no detection. */
  lemma {:induction false} QuietLinesYieldNothing(lines: seq<string>, env: LogEnv)
    requires forall i :: 0 <= i < |lines| ==> !IsApiCall(lines[i]) && !IsExhausted(lines[i])
    ensures ParseLines(lines, env) == []
    decreases |lines|
  {
    if |lines| > 0 {
      QuietLinesYieldNothing(lines[..|lines| - 1], env);
    }
  }

  // ---------------------------------------------------------------------------
  // Tailing
  // ---------------------------------------------------------------------------

  /** The file being tailed, if any, and the byte offset up to which it has been read. */
  datatype Tailer = Tailer(watched: Option<string>, position: nat)

  const InitialTailer := Tailer(None, 0)

  /**
   * What one poll finds: `statSync` threw, or the file's current bytes and whether
   * opening or reading it then threw.
   */
  datatype FileProbe = StatFailed | Stat(bytes: seq<Byte>, readFails: bool)

  /**
   * `readNewContent` without the parsing: the new read position and the bytes read.
   * A file shorter than the position has been rotated and is read from the start;
   * any failure resets the position to 0.
   */
  function Poll(position: nat, probe: FileProbe): (r: (nat, Option<seq<Byte>>))
    ensures probe.StatFailed? ==> r == (0, None)
    ensures probe.Stat? && |probe.bytes| == position ==> r == (position, None)
    ensures probe.Stat? && |probe.bytes| != position && probe.readFails ==> r == (0, None)
    ensures probe.Stat? && position < |probe.bytes| && !probe.readFails ==>
      r == (|probe.bytes|, Some(probe.bytes[position..]))
    ensures probe.Stat? && |probe.bytes| < position && !probe.readFails ==>
      r == (|probe.bytes|, if |probe.bytes| == 0 then None else Some(probe.bytes))
    ensures r.1.Some? ==> |r.1.value| > 0
  {
    match probe
    case StatFailed => (0, None)
    case Stat(bytes, readFails) =>
      var start := if |bytes| < position then 0 else position;
      if |bytes| == start then (start, None)
      else if readFails then (0, None)
      else (|bytes|, Some(bytes[start..]))
  }

  /** One tick of the tail timer: poll the watched file and parse what was appended. */
  function Tick(t: Tailer, probe: FileProbe, env: LogEnv): (r: (Tailer, seq<DetectedEvent>))
    ensures r.0.watched == t.watched
    ensures t.watched.None? ==> r == (t, [])
    ensures t.watched.Some? ==> r.0.position == Poll(t.position, probe).0
    ensures Poll(t.position, probe).1.None? ==> r.1 == []
    ensures forall i :: 0 <= i < |r.1| ==> r.1[i].source == LogFile
  {
    if t.watched.None? then (t, [])
    else
      var (position, chunk) := Poll(t.position, probe);
      var events := if chunk.None? then [] else ParseLines(Split(env.decode(chunk.value), '\n'), env);
      (t.(position := position), events)
  }

  /**
   * A chunk that decodes to lines joined by line feeds yields exactly those lines' detections,
   * in order; a trailing line feed contributes an empty last line, which matches nothing.
   */
  lemma TickParsesChunkLines(t: Tailer, probe: FileProbe, env: LogEnv, lines: seq<string>)
    requires t.watched.Some? && Poll(t.position, probe).1.Some?
    requires |lines| >= 1 && forall i :: 0 <= i < |lines| ==> '\n' !in lines[i]
    requires env.decode(Poll(t.position, probe).1.value) == Join(lines, '\n')
    ensures Tick(t, probe, env).1 == ParseLines(lines, env)
  {
    SplitJoin(lines, '\n');
  }

  /**
   * `startTailing`: watch `path` from its current end, so only content appended later is
   * read; when `statSync` throws (`size` is None) the whole file will be read.
   */
  function StartTailing(t: Tailer, path: string, size: Option<nat>): (t': Tailer)
    ensures t'.watched == Some(path)
    ensures size.Some? ==> t'.position == size.value
    ensures size.None? ==> t'.position == 0
  {
    Tailer(Some(path), size.GetOr(0))
  }

  /** A file that has not grown since tailing started yields nothing on the next tick. */
  lemma StartThenUnchangedTick(t: Tailer, path: string, bytes: seq<Byte>, readFails: bool, env: LogEnv)
    ensures var t' := StartTailing(t, path, Some(|bytes|));
      Tick(t', Stat(bytes, readFails), env) == (t', [])
  {
  }

  /** Each snapshot of the file extends the earlier ones: the log is only appended to. */
  ghost predicate AppendOnly(files: seq<seq<Byte>>) {
    forall i, j :: 0 <= i <= j < |files| ==> files[i] <= files[j]
  }

  /** Successive polls that all succeed: the final position and every byte read, in order. */
  function PollAll(position: nat, files: seq<seq<Byte>>): (r: (nat, seq<Byte>))
    decreases |files|
  {
    if |files| == 0 then (position, [])
    else
      var (next, chunk) := Poll(position, Stat(files[0], false));
      var (last, rest) := PollAll(next, files[1..]);
      (last, chunk.GetOr([]) + rest)
  }

  /**
   * While the log is only appended to, tailing reads every new byte exactly once and in
   * order: the chunks read concatenate to everything after the starting position.
   */
  lemma {:induction false} AppendOnlyReadsEachByteOnce(position: nat, files: seq<seq<Byte>>)
    requires |files| > 0 && AppendOnly(files)
    requires position <= |files[0]|
    ensures PollAll(position, files) == (|files[|files| - 1]|, files[|files| - 1][position..])
    decreases |files|
  {
    var first := files[0];
    var last := files[|files| - 1];
    var (next, chunk) := Poll(position, Stat(first, false));
    assert next == |first|;
    assert chunk.GetOr([]) == first[position..];
    if |files| == 1 {
      assert PollAll(next, files[1..]) == (next, []);
      assert chunk.GetOr([]) + [] == last[position..];
    } else {
      var tail := files[1..];
      assert tail[0] == files[1] && tail[|tail| - 1] == last;
      assert AppendOnly(tail) by {
        forall i, j | 0 <= i <= j < |tail| ensures tail[i] <= tail[j] {
          assert tail[i] == files[i + 1] && tail[j] == files[j + 1];
        }
      }
      assert first <= files[1] && first <= last;
      AppendOnlyReadsEachByteOnce(next, tail);
      assert first[position..] + last[|first|..] == last[position..];
    }
  }

  /** After a rotation (the file is now shorter than the position) the new file is read from its start. */
  lemma RotationRereadsFromStart(position: nat, bytes: seq<Byte>)
    requires 0 < |bytes| < position
    ensures Poll(position, Stat(bytes, false)) == (|bytes|, Some(bytes))
  {
  }

  // ---------------------------------------------------------------------------
  // Choosing the file
  // ---------------------------------------------------------------------------

  const LogFileName: string := "Antigravity.log"
  const ExtensionDir: string := "google.antigravity"

  /** The directory watcher's filter on newly created `*.log` files. */
  predicate WatcherAccepts(path: string) {
    Contains(path, ExtensionDir) && EndsWith(path, LogFileName)
  }

  /** `<logDir>/<session>/window1/exthost/google.antigravity/Antigravity.log`. */
  function CandidatePath(logDir: string, session: string): (p: string)
    ensures EndsWith(p, LogFileName)
  {
    logDir + "/" + session + "/window1/exthost/" + ExtensionDir + "/" + LogFileName
  }

  /** Every candidate chosen at start-up would also pass the watcher's filter. */
  lemma CandidatePassesWatcher(logDir: string, session: string)
    ensures WatcherAccepts(CandidatePath(logDir, session))
  {
    var p := CandidatePath(logDir, session);
    var at := |logDir + "/" + session + "/window1/exthost/"|;
    assert p[at..at + |ExtensionDir|] == ExtensionDir;
    assert ContainsAt(p, ExtensionDir, at);
  }

  /** The watcher's `onDidCreate` handler: switch to a new log of the extension, ignore others. */
  function OnLogFileCreated(t: Tailer, path: string, size: Option<nat>): (t': Tailer)
    ensures WatcherAccepts(path) ==> t' == StartTailing(t, path, size)
    ensures !WatcherAccepts(path) ==> t' == t
  {
    if WatcherAccepts(path) then StartTailing(t, path, size) else t
  }

  datatype DirEntry = DirEntry(name: string, isDirectory: bool)

  /** A session directory whose extension log exists. */
  predicate HasLog(logDir: string, e: DirEntry, fileExists: string -> bool) {
    e.isDirectory && fileExists(CandidatePath(logDir, e.name))
  }

  /** `session` is the name of an entry with a log, and no entry with a log sorts after it. */
  ghost predicate IsLatestSession(logDir: string, entries: seq<DirEntry>, fileExists: string -> bool, session: string) {
    && (exists i :: 0 <= i < |entries| && HasLog(logDir, entries[i], fileExists) && entries[i].name == session)
    && (forall i :: 0 <= i < |entries| && HasLog(logDir, entries[i], fileExists) ==> LexLe(entries[i].name, session))
  }

  /**
   * `findLatestLogFile`: of the session directories, sorted by name and tried from the last,
   * the first whose log exists. `listing` is None when reading the directory throws.
   */
  method FindLatestLogFile(logDir: string, listing: Option<seq<DirEntry>>, fileExists: string -> bool)
    returns (r: Option<string>)
    ensures listing.None? ==> r.None?
    ensures listing.Some? && r.None? ==>
      forall i :: 0 <= i < |listing.value| ==> !HasLog(logDir, listing.value[i], fileExists)
    ensures r.Some? ==> (listing.Some? &&
      exists session :: IsLatestSession(logDir, listing.value, fileExists, session) && r.value == CandidatePath(logDir, session))
  {
    if listing.None? {
      return None;
    }
    var entries := listing.value;
    var best: Option<string> := None;
    var i := 0;
    while i < |entries|
      invariant 0 <= i <= |entries|
      invariant best.None? ==> forall j :: 0 <= j < i ==> !HasLog(logDir, entries[j], fileExists)
      invariant best.Some? ==> exists j :: 0 <= j < i && HasLog(logDir, entries[j], fileExists) && entries[j].name == best.value
      invariant best.Some? ==> forall j :: 0 <= j < i && HasLog(logDir, entries[j], fileExists) ==> LexLe(entries[j].name, best.value)
    {
      var e := entries[i];
      if HasLog(logDir, e, fileExists) {
        if best.None? {
          LexLeReflexive(e.name);
          best := Some(e.name);
        } else if LexLe(best.value, e.name) {
          var old_best := best.value;
          forall j | 0 <= j < i && HasLog(logDir, entries[j], fileExists)
            ensures LexLe(entries[j].name, e.name)
          {
            LexLeTransitive(entries[j].name, old_best, e.name);
          }
          LexLeReflexive(e.name);
          best := Some(e.name);
        } else {
          LexLeTotal(best.value, e.name);
        }
      }
      i := i + 1;
    }
    if best.None? {
      return None;
    }
    r := Some(CandidatePath(logDir, best.value));
    assert IsLatestSession(logDir, entries, fileExists, best.value);
  }

  /** Only one session can be the latest, so the choice does not depend on the listing's order. */
  lemma LatestSessionUnique(logDir: string, entries: seq<DirEntry>, fileExists: string -> bool, s1: string, s2: string)
    requires IsLatestSession(logDir, entries, fileExists, s1)
    requires IsLatestSession(logDir, entries, fileExists, s2)
    ensures s1 == s2
  {
    var i1 :| 0 <= i1 < |entries| && HasLog(logDir, entries[i1], fileExists) && entries[i1].name == s1;
    var i2 :| 0 <= i2 < |entries| && HasLog(logDir, entries[i2], fileExists) && entries[i2].name == s2;
    LexLeAntisymmetric(s1, s2);
  }
}
