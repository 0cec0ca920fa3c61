/**
 * Insertion-ordered counters and groupings, the shape of the JavaScript
 * `Map<K, number>` / `Map<K, V[]>` (and plain-object counters) that the daily
 * summaries are built with. A key keeps the position of its first insertion.
 */
module Tally {

  /** A counter: each key with its count, in first-insertion order. */
  type Tally<K> = seq<(K, nat)>

  /** A grouping: each key with the values filed under it, in first-insertion order. */
  type Groups<K, V> = seq<(K, seq<V>)>

  /** Some entry of the table has key `k`. */
  predicate HasKey<K(==), X>(t: seq<(K, X)>, k: K) {
    exists i :: 0 <= i < |t| && t[i].0 == k
  }

  /** No key appears twice. */
  predicate DistinctKeys<K(==), X>(t: seq<(K, X)>) {
    forall i, j :: 0 <= i < j < |t| ==> t[i].0 != t[j].0
  }

  /** Position of the entry with key `k`, or `|t|` when there is none (a map lookup). */
  function IndexOf<K(==), X>(t: seq<(K, X)>, k: K): (i: nat)
    ensures i <= |t|
    ensures i < |t| ==> t[i].0 == k
    ensures forall j :: 0 <= j < i ==> t[j].0 != k
  {
    if |t| == 0 then 0
    else if t[0].0 == k then 0
    else 1 + IndexOf(t[1..], k)
  }

  /** Any index with the three properties of a lookup result is the lookup result. */
  lemma IndexOfUnique<K, X>(t: seq<(K, X)>, k: K, i: nat)
    requires i <= |t|
    requires i < |t| ==> t[i].0 == k
    requires forall j :: 0 <= j < i ==> t[j].0 != k
    ensures IndexOf(t, k) == i
  {
  }

  /** Number of times `k` occurs in `ks`. */
  function Occurrences<K(==)>(ks: seq<K>, k: K): nat {
    if |ks| == 0 then 0
    else Occurrences(ks[..|ks| - 1], k) + (if ks[|ks| - 1] == k then 1 else 0)
  }

  lemma OccurrencesLast<K>(ks: seq<K>, init: seq<K>, last: K, k: K)
    requires |ks| > 0 && ks[..|ks| - 1] == init && ks[|ks| - 1] == last
    ensures Occurrences(ks, k) == Occurrences(init, k) + (if last == k then 1 else 0)
  {
  }

  /** The count recorded for `k` (`map.get(k) || 0`). */
  function CountOf<K(==)>(t: Tally<K>, k: K): nat {
    var i := IndexOf(t, k);
    if i < |t| then t[i].1 else 0
  }

  /** Sum of all counts. */
  function Total<K>(t: Tally<K>): nat {
    if |t| == 0 then 0 else Total(t[..|t| - 1]) + t[|t| - 1].1
  }

  lemma {:induction false} TotalUpdate<K>(t: Tally<K>, i: nat, x: (K, nat))
    requires i < |t|
    ensures Total(t[i := x]) == Total(t) - t[i].1 + x.1
    decreases |t|
  {
    var n := |t|;
    if i == n - 1 {
      assert t[i := x][..n - 1] == t[..n - 1];
    } else {
      assert t[i := x][..n - 1] == t[..n - 1][i := x];
      TotalUpdate(t[..n - 1], i, x);
    }
  }

  lemma TotalAppend<K>(t: Tally<K>, x: (K, nat))
    ensures Total(t + [x]) == Total(t) + x.1
  {
    assert (t + [x])[..|t|] == t;
  }

  /** The largest count, or 0 for an empty counter (`size > 0 ? Math.max(...values) : 0`). */
  function MaxCount<K>(t: Tally<K>): (m: nat)
    ensures forall i :: 0 <= i < |t| ==> t[i].1 <= m
    ensures |t| > 0 ==> exists i :: 0 <= i < |t| && t[i].1 == m
    ensures |t| == 0 ==> m == 0
  {
    if |t| == 0 then 0
    else
      var rest := MaxCount(t[1..]);
      assert forall i :: 1 <= i < |t| ==> t[i] == t[1..][i - 1];
      if t[0].1 >= rest then t[0].1 else rest
  }

  /** `map.set(k, (map.get(k) || 0) + 1)`. */
  function Bump<K(==)>(t: Tally<K>, k: K): Tally<K> {
    var i := IndexOf(t, k);
    if i < |t| then t[i := (k, t[i].1 + 1)] else t + [(k, 1)]
  }

  lemma BumpCounts<K>(t: Tally<K>, k: K)
    ensures Total(Bump(t, k)) == Total(t) + 1
    ensures forall k' :: CountOf(Bump(t, k), k') == CountOf(t, k') + (if k' == k then 1 else 0)
  {
    var i := IndexOf(t, k);
    var b := Bump(t, k);
    if i < |t| {
      TotalUpdate(t, i, (k, t[i].1 + 1));
      forall k' ensures IndexOf(b, k') == IndexOf(t, k') {
        IndexOfUnique(b, k', IndexOf(t, k'));
      }
    } else {
      TotalAppend(t, (k, 1));
      forall k' ensures IndexOf(b, k') == if k' == k || IndexOf(t, k') < |t| then IndexOf(t, k') else |b| {
        IndexOfUnique(b, k', if k' == k || IndexOf(t, k') < |t| then IndexOf(t, k') else |b|);
      }
    }
  }

  lemma BumpShape<K>(t: Tally<K>, k: K)
    ensures HasKey(Bump(t, k), k)
    ensures forall k' :: HasKey(Bump(t, k), k') <==> HasKey(t, k') || k' == k
    ensures DistinctKeys(t) ==> DistinctKeys(Bump(t, k))
    ensures (forall i :: 0 <= i < |t| ==> t[i].1 >= 1) ==>
              forall i :: 0 <= i < |Bump(t, k)| ==> Bump(t, k)[i].1 >= 1
  {
    var i := IndexOf(t, k);
    var b := Bump(t, k);
    if i < |t| {
      assert b[i].0 == k;
      assert forall j :: 0 <= j < |t| ==> b[j].0 == t[j].0;
    } else {
      assert b[|t|].0 == k;
      assert forall j :: 0 <= j < |t| ==> b[j] == t[j];
    }
  }

  /**
   * Counting every key of `ks` in order. The counter records each key exactly as often as it
   * occurs, once, with a positive count, and the counts add up to the number of keys.
   */
  function CountAll<K(==,!new)>(ks: seq<K>): (t: Tally<K>)
    ensures Total(t) == |ks|
    ensures forall k :: CountOf(t, k) == Occurrences(ks, k)
    ensures DistinctKeys(t)
    ensures forall i :: 0 <= i < |t| ==> t[i].1 >= 1
    ensures forall k :: HasKey(t, k) <==> k in ks
  {
    if |ks| == 0 then []
    else
      var prefix := CountAll(ks[..|ks| - 1]);
      BumpCounts(prefix, ks[|ks| - 1]);
      BumpShape(prefix, ks[|ks| - 1]);
      assert ks == ks[..|ks| - 1] + [ks[|ks| - 1]];
      Bump(prefix, ks[|ks| - 1])
  }

  /** The largest count never exceeds the total, and a non-empty counter of positive counts peaks at 1 or more. */
  lemma {:induction false} MaxCountBounds<K>(t: Tally<K>)
    requires forall i :: 0 <= i < |t| ==> t[i].1 >= 1
    ensures MaxCount(t) <= Total(t)
    ensures |t| > 0 ==> 1 <= MaxCount(t)
  {
    if |t| > 0 {
      var i :| 0 <= i < |t| && t[i].1 == MaxCount(t);
      CountBelowTotal(t, i);
    }
  }

  lemma {:induction false} CountBelowTotal<K>(t: Tally<K>, i: nat)
    requires i < |t|
    ensures t[i].1 <= Total(t)
    decreases |t|
  {
    if i < |t| - 1 {
      CountBelowTotal(t[..|t| - 1], i);
    }
  }

  /**
   * The largest count of a counter built from `ks` is the number of occurrences of its most
   * frequent key: no key occurs more often, one key occurs exactly that often, and it never
   * exceeds the number of keys counted.
   */
  lemma PeakIsMostFrequent<K(!new)>(ks: seq<K>)
    ensures forall k :: Occurrences(ks, k) <= MaxCount(CountAll(ks))
    ensures |ks| > 0 ==> exists k :: k in ks && Occurrences(ks, k) == MaxCount(CountAll(ks))
    ensures MaxCount(CountAll(ks)) <= |ks|
  {
    var t := CountAll(ks);
    MaxCountBounds(t);
    forall k ensures Occurrences(ks, k) <= MaxCount(t) {
      assert CountOf(t, k) == Occurrences(ks, k);
    }
    if |ks| > 0 {
      assert HasKey(t, ks[0]);
      var i :| 0 <= i < |t| && t[i].1 == MaxCount(t);
      var k := t[i].0;
      IndexOfUnique(t, k, i);
      assert CountOf(t, k) == t[i].1;
      assert HasKey(t, k);
    }
  }

  /** The values of `vs` whose key is `k`, in order. */
  function Matching<K(==), V>(vs: seq<V>, key: V -> K, k: K): (r: seq<V>)
    ensures |r| <= |vs|
  {
    if |vs| == 0 then []
    else Matching(vs[..|vs| - 1], key, k) + (if key(vs[|vs| - 1]) == k then [vs[|vs| - 1]] else [])
  }

  /** `const list = groups.get(k) || []; list.push(v); groups.set(k, list)`. */
  function File<K(==), V>(g: Groups<K, V>, k: K, v: V): Groups<K, V> {
    var i := IndexOf(g, k);
    if i < |g| then g[i := (k, g[i].1 + [v])] else g + [(k, [v])]
  }

  /** A key without a group matches none of the values whose keys all have groups. */
  lemma {:induction false} MatchingEmpty<K, V>(vs: seq<V>, key: V -> K, k: K, g: Groups<K, V>)
    requires forall j :: 0 <= j < |vs| ==> HasKey(g, key(vs[j]))
    requires !HasKey(g, k)
    ensures Matching(vs, key, k) == []
    decreases |vs|
  {
    if |vs| > 0 {
      MatchingEmpty(vs[..|vs| - 1], key, k, g);
      assert HasKey(g, key(vs[|vs| - 1]));
    }
  }

  /**
   * `g` is the grouping of `vs` under `key`: one group per key, each holding exactly the
   * values with that key in their original order, none empty, and every value's key present.
   */
  ghost predicate GroupsOf<K, V>(g: Groups<K, V>, vs: seq<V>, key: V -> K) {
    && DistinctKeys(g)
    && (forall i :: 0 <= i < |g| ==> g[i].1 == Matching(vs, key, g[i].0))
    && (forall i :: 0 <= i < |g| ==> |g[i].1| >= 1)
    && (forall j :: 0 <= j < |vs| ==> HasKey(g, key(vs[j])))
  }

  /** Grouping every value of `vs` under `key(v)`, filing them one at a time in order. */
  function GroupAll<K(==), V>(vs: seq<V>, key: V -> K): (g: Groups<K, V>)
    ensures GroupsOf(g, vs, key)
  {
    if |vs| == 0 then []
    else
      var init := vs[..|vs| - 1];
      var last := vs[|vs| - 1];
      var prefix := GroupAll(init, key);
      GroupStep(init, last, key, prefix);
      assert init + [last] == vs;
      File(prefix, key(last), last)
  }

  lemma MatchingSnoc<K, V>(init: seq<V>, last: V, key: V -> K)
    ensures forall k ::
      Matching(init + [last], key, k) == Matching(init, key, k) + (if key(last) == k then [last] else [])
  {
    assert (init + [last])[..|init|] == init;
  }

  lemma GroupStep<K, V>(init: seq<V>, last: V, key: V -> K, prefix: Groups<K, V>)
    requires GroupsOf(prefix, init, key)
    ensures GroupsOf(File(prefix, key(last), last), init + [last], key)
  {
    MatchingSnoc(init, last, key);
    if IndexOf(prefix, key(last)) < |prefix| {
      GroupStepExisting(init, last, key, prefix);
    } else {
      MatchingEmpty(init, key, key(last), prefix);
      GroupStepNew(init, last, key, prefix);
    }
  }

  lemma GroupStepExisting<K, V>(init: seq<V>, last: V, key: V -> K, prefix: Groups<K, V>)
    requires GroupsOf(prefix, init, key)
    requires IndexOf(prefix, key(last)) < |prefix|
    requires forall k ::
      Matching(init + [last], key, k) == Matching(init, key, k) + (if key(last) == k then [last] else [])
    ensures GroupsOf(File(prefix, key(last), last), init + [last], key)
  {
    var k := key(last);
    var i := IndexOf(prefix, k);
    var g := prefix[i := (k, prefix[i].1 + [last])];
    assert g == File(prefix, k, last);
    ExistingGroupShape(prefix, i, last);
    ExistingGroupContents(init, last, key, prefix);
    ExistingGroupCovers(init, last, key, prefix);
  }

  lemma ExistingGroupShape<K, V>(prefix: Groups<K, V>, i: nat, last: V)
    requires i < |prefix|
    requires DistinctKeys(prefix)
    requires forall m :: 0 <= m < |prefix| ==> |prefix[m].1| >= 1
    ensures var g := prefix[i := (prefix[i].0, prefix[i].1 + [last])];
      DistinctKeys(g) && forall m :: 0 <= m < |g| ==> |g[m].1| >= 1
  {
    var g := prefix[i := (prefix[i].0, prefix[i].1 + [last])];
    assert forall m :: 0 <= m < |g| ==> g[m].0 == prefix[m].0;
    forall m | 0 <= m < |g| ensures |g[m].1| >= 1 {
      if m != i {
        assert g[m] == prefix[m];
      }
    }
  }

  lemma ExistingGroupContents<K, V>(init: seq<V>, last: V, key: V -> K, prefix: Groups<K, V>)
    requires DistinctKeys(prefix)
    requires forall i :: 0 <= i < |prefix| ==> prefix[i].1 == Matching(init, key, prefix[i].0)
    requires IndexOf(prefix, key(last)) < |prefix|
    requires forall k ::
      Matching(init + [last], key, k) == Matching(init, key, k) + (if key(last) == k then [last] else [])
    ensures var i := IndexOf(prefix, key(last));
      var g := prefix[i := (key(last), prefix[i].1 + [last])];
      forall m :: 0 <= m < |g| ==> g[m].1 == Matching(init + [last], key, g[m].0)
  {
    var vs := init + [last];
    var k := key(last);
    var i := IndexOf(prefix, k);
    var g := prefix[i := (k, prefix[i].1 + [last])];
    forall m | 0 <= m < |g| ensures g[m].1 == Matching(vs, key, g[m].0) {
      if m != i {
        assert g[m] == prefix[m];
        assert prefix[m].0 != k;
        assert Matching(vs, key, prefix[m].0) == Matching(init, key, prefix[m].0) + [];
      } else {
        assert Matching(vs, key, k) == Matching(init, key, k) + [last];
      }
    }
  }

  lemma ExistingGroupCovers<K, V>(init: seq<V>, last: V, key: V -> K, prefix: Groups<K, V>)
    requires forall j :: 0 <= j < |init| ==> HasKey(prefix, key(init[j]))
    requires IndexOf(prefix, key(last)) < |prefix|
    ensures var i := IndexOf(prefix, key(last));
      var g := prefix[i := (key(last), prefix[i].1 + [last])];
      forall j :: 0 <= j < |init| + 1 ==> HasKey(g, key((init + [last])[j]))
  {
    var vs := init + [last];
    var i := IndexOf(prefix, key(last));
    var g := prefix[i := (key(last), prefix[i].1 + [last])];
    forall j | 0 <= j < |vs| ensures HasKey(g, key(vs[j])) {
      if j < |init| {
        assert vs[j] == init[j];
        var m :| 0 <= m < |prefix| && prefix[m].0 == key(init[j]);
        assert g[m].0 == key(vs[j]);
      } else {
        assert g[i].0 == key(vs[j]);
      }
    }
  }

  lemma GroupStepNew<K, V>(init: seq<V>, last: V, key: V -> K, prefix: Groups<K, V>)
    requires GroupsOf(prefix, init, key)
    requires IndexOf(prefix, key(last)) == |prefix|
    requires Matching(init, key, key(last)) == []
    requires forall k ::
      Matching(init + [last], key, k) == Matching(init, key, k) + (if key(last) == k then [last] else [])
    ensures GroupsOf(File(prefix, key(last), last), init + [last], key)
  {
    var g := prefix + [(key(last), [last])];
    assert g == File(prefix, key(last), last);
    NewGroupContents(init, last, key, prefix);
    NewGroupShape(prefix, key(last), [last]);
    NewGroupCovers(init, last, key, prefix);
  }

  lemma NewGroupContents<K, V>(init: seq<V>, last: V, key: V -> K, prefix: Groups<K, V>)
    requires forall i :: 0 <= i < |prefix| ==> prefix[i].1 == Matching(init, key, prefix[i].0)
    requires IndexOf(prefix, key(last)) == |prefix|
    requires Matching(init, key, key(last)) == []
    requires forall k ::
      Matching(init + [last], key, k) == Matching(init, key, k) + (if key(last) == k then [last] else [])
    ensures var g := prefix + [(key(last), [last])];
      forall m :: 0 <= m < |g| ==> g[m].1 == Matching(init + [last], key, g[m].0)
  {
    var vs := init + [last];
    var k := key(last);
    var g := prefix + [(k, [last])];
    forall m | 0 <= m < |g| ensures g[m].1 == Matching(vs, key, g[m].0) {
      if m < |prefix| {
        assert g[m] == prefix[m];
        assert prefix[m].0 != k;
        assert Matching(vs, key, prefix[m].0) == Matching(init, key, prefix[m].0) + [];
      } else {
        assert Matching(vs, key, k) == Matching(init, key, k) + [last];
      }
    }
  }

  lemma NewGroupShape<K, V>(prefix: Groups<K, V>, k: K, vs: seq<V>)
    requires DistinctKeys(prefix)
    requires forall m :: 0 <= m < |prefix| ==> |prefix[m].1| >= 1
    requires IndexOf(prefix, k) == |prefix|
    requires |vs| >= 1
    ensures DistinctKeys(prefix + [(k, vs)])
    ensures forall m :: 0 <= m < |prefix| + 1 ==> |(prefix + [(k, vs)])[m].1| >= 1
  {
    var g := prefix + [(k, vs)];
    forall m | 0 <= m < |g| ensures |g[m].1| >= 1 {
      if m < |prefix| {
        assert g[m] == prefix[m];
      }
    }
    forall m, n | 0 <= m < n < |g| ensures g[m].0 != g[n].0 {
      assert g[m] == prefix[m];
      if n == |prefix| {
        assert prefix[m].0 != k;
      } else {
        assert g[n] == prefix[n];
      }
    }
  }

  lemma NewGroupCovers<K, V>(init: seq<V>, last: V, key: V -> K, prefix: Groups<K, V>)
    requires forall j :: 0 <= j < |init| ==> HasKey(prefix, key(init[j]))
    ensures forall j :: 0 <= j < |init| + 1 ==> HasKey(prefix + [(key(last), [last])], key((init + [last])[j]))
  {
    var vs := init + [last];
    var g := prefix + [(key(last), [last])];
    forall j | 0 <= j < |vs| ensures HasKey(g, key(vs[j])) {
      if j < |init| {
        assert vs[j] == init[j];
        var m :| 0 <= m < |prefix| && prefix[m].0 == key(init[j]);
        assert g[m] == prefix[m];
      } else {
        assert g[|prefix|].0 == key(vs[j]);
      }
    }
  }
}
