/**
 * Time filters over a log of usage events: `events.filter(e => e.timestamp >= t)`
 * and its complement, shared by the rolling-window counters and by pruning.
 */
module EventLog {
  import opened Types

  /** The events at or after instant `t`, in their original order. */
  function Since(events: seq<UsageEvent>, t: Millis): (r: seq<UsageEvent>)
    ensures |r| <= |events|
    ensures forall i :: 0 <= i < |r| ==> r[i].timestamp >= t
  {
    if |events| == 0 then []
    else
      var last := events[|events| - 1];
      Since(events[..|events| - 1], t) + (if last.timestamp >= t then [last] else [])
  }

  /** The events strictly before instant `t`, in their original order. */
  function Before(events: seq<UsageEvent>, t: Millis): (r: seq<UsageEvent>)
    ensures |r| <= |events|
    ensures forall i :: 0 <= i < |r| ==> r[i].timestamp < t
  {
    if |events| == 0 then []
    else
      var last := events[|events| - 1];
      Before(events[..|events| - 1], t) + (if last.timestamp < t then [last] else [])
  }

  /**
   * How many entries of the log are at or after instant `t`, counted from the front; a
   * reference for the filter, which works from the back.
   */
  function CountFrom(events: seq<UsageEvent>, t: Millis): nat
    decreases |events|
  {
    if |events| == 0 then 0
    else (if events[0].timestamp >= t then 1 else 0) + CountFrom(events[1..], t)
  }

  /** The filter keeps one record per position at or after `t`: its length is that count. */
  lemma {:induction false} SinceCount(events: seq<UsageEvent>, t: Millis)
    ensures |Since(events, t)| == CountFrom(events, t)
  {
    if |events| > 0 {
      var init := events[..|events| - 1];
      SinceCount(init, t);
      assert events == init + [events[|events| - 1]];
      CountFromSnoc(init, events[|events| - 1], t);
    }
  }

  /** Appending one record adds one to the count exactly when it is at or after `t`. */
  lemma {:induction false} CountFromSnoc(init: seq<UsageEvent>, e: UsageEvent, t: Millis)
    ensures CountFrom(init + [e], t) == CountFrom(init, t) + (if e.timestamp >= t then 1 else 0)
    decreases |init|
  {
    if |init| == 0 {
      assert init + [e] == [e];
      assert [e][1..] == [];
    } else {
      assert (init + [e])[0] == init[0];
      assert (init + [e])[1..] == init[1..] + [e];
      CountFromSnoc(init[1..], e, t);
    }
  }

  /** Splitting at `t` loses and duplicates nothing: the two halves together are as long as the log. */
  lemma {:induction false} SinceBeforePartition(events: seq<UsageEvent>, t: Millis)
    ensures |Since(events, t)| + |Before(events, t)| == |events|
  {
    if |events| > 0 {
      SinceBeforePartition(events[..|events| - 1], t);
    }
  }

  /** Exactly the events at or after `t` survive the filter. */
  lemma {:induction false} SinceMembers(events: seq<UsageEvent>, t: Millis)
    ensures forall e :: e in Since(events, t) <==> e in events && e.timestamp >= t
  {
    if |events| > 0 {
      var init := events[..|events| - 1];
      SinceMembers(init, t);
      assert events == init + [events[|events| - 1]];
    }
  }

  /** Exactly the events before `t` are filtered out. */
  lemma {:induction false} BeforeMembers(events: seq<UsageEvent>, t: Millis)
    ensures forall e :: e in Before(events, t) <==> e in events && e.timestamp < t
  {
    if |events| > 0 {
      var init := events[..|events| - 1];
      BeforeMembers(init, t);
      assert events == init + [events[|events| - 1]];
    }
  }

  /** A later cut-off keeps no more events. */
  lemma {:induction false} SinceAntitone(events: seq<UsageEvent>, t1: Millis, t2: Millis)
    requires t1 <= t2
    ensures |Since(events, t2)| <= |Since(events, t1)|
  {
    if |events| > 0 {
      SinceAntitone(events[..|events| - 1], t1, t2);
    }
  }

  /** When every event is at or after `t`, nothing is filtered out. */
  lemma {:induction false} SinceKeepsAll(events: seq<UsageEvent>, t: Millis)
    requires forall i :: 0 <= i < |events| ==> events[i].timestamp >= t
    ensures Since(events, t) == events
  {
    if |events| > 0 {
      SinceKeepsAll(events[..|events| - 1], t);
      assert events == events[..|events| - 1] + [events[|events| - 1]];
    }
  }
}
