/**
 The in-memory click event repository and its aggregate query
 (src/storage/memory/in_memory_click_event_repository.cpp).

 Event times are clock ticks (nanoseconds) since the epoch.  The source divides with truncation
 toward zero (`TruncDiv`).
 */
module ClickAggregates {
  import opened ClickEvents
  import opened Clock
  import opened Wrappers

  datatype BucketSize = Hour | Day | Week

  datatype Query = Query(slug: Option<string>, linkId: Option<string>, from: int, to: int, bucket: Option<BucketSize>)

  datatype Stats = Stats(
    totalAttempts: nat, successfulRedirects: nat,
    statusCodeCounts: seq<(int, nat)>, domainCounts: seq<(string, nat)>, timeBuckets: seq<(int, nat)>)

  function Width(b: BucketSize): int {
    match b
    case Hour => 3600
    case Day => 86400
    case Week => 604800
  }

  function Align(seconds: int, b: BucketSize): int {
    TruncDiv(seconds, Width(b)) * Width(b)
  }

  /** Start of the bucket an event falls into, in seconds. */
  function BucketStart(ticks: int, b: BucketSize): int {
    Align(WholeSeconds(ticks), b)
  }

  predicate Matches(q: Query, e: ClickEvent) {
    && (q.slug.Some? ==> e.slug == q.slug.value)
    && (q.linkId.Some? ==> e.linkId == q.linkId.value)
    && q.from <= e.occurredAt < q.to
  }

  predicate IsRedirect(e: ClickEvent) {
    300 <= e.statusCode < 400
  }

  function Selected(events: seq<ClickEvent>, q: Query): seq<ClickEvent> {
    if events == [] then [] else
      Selected(events[..|events| - 1], q) + (if Matches(q, events[|events| - 1]) then [events[|events| - 1]] else [])
  }

  function Redirects(events: seq<ClickEvent>): nat {
    if events == [] then 0 else
      Redirects(events[..|events| - 1]) + (if IsRedirect(events[|events| - 1]) then 1 else 0)
  }

  /** The keys a tally counts: status codes, domains or bucket starts. */
  function StatusKeys(events: seq<ClickEvent>): (keys: seq<int>)
    ensures |keys| == |events|
    ensures forall i :: 0 <= i < |events| ==> keys[i] == events[i].statusCode
  {
    seq(|events|, i requires 0 <= i < |events| => events[i].statusCode)
  }

  function DomainKeys(events: seq<ClickEvent>): (keys: seq<string>)
    ensures |keys| == |events|
    ensures forall i :: 0 <= i < |events| ==> keys[i] == events[i].domain
  {
    seq(|events|, i requires 0 <= i < |events| => events[i].domain)
  }

  function BucketKeys(events: seq<ClickEvent>, b: BucketSize): (keys: seq<int>)
    ensures |keys| == |events|
    ensures forall i :: 0 <= i < |events| ==> keys[i] == BucketStart(events[i].occurredAt, b)
  {
    seq(|events|, i requires 0 <= i < |events| => BucketStart(events[i].occurredAt, b))
  }

  function Count<K(==)>(keys: seq<K>, k: K): nat {
    if keys == [] then 0 else Count(keys[..|keys| - 1], k) + (if keys[|keys| - 1] == k then 1 else 0)
  }

  /** `counts` lists every key that occurs, once, with the number of its occurrences. */
  ghost predicate IsTally<K>(counts: seq<(K, nat)>, keys: seq<K>) {
    && (forall i, j :: 0 <= i < j < |counts| ==> counts[i].0 != counts[j].0)
    && (forall i :: 0 <= i < |counts| ==> counts[i].1 == Count(keys, counts[i].0) > 0)
    && (forall i :: 0 <= i < |keys| ==> Lists(counts, keys[i]))
  }

  ghost predicate Lists<K>(counts: seq<(K, nat)>, k: K) {
    exists j :: 0 <= j < |counts| && counts[j].0 == k
  }

  ghost predicate Ascending(counts: seq<(int, nat)>) {
    forall i, j :: 0 <= i < j < |counts| ==> counts[i].0 < counts[j].0
  }

  // ----- the counting maps -----

  ghost predicate Tallies<K>(m: map<K, nat>, keys: seq<K>) {
    && (forall k :: k in m ==> m[k] == Count(keys, k) > 0)
    && (forall i :: 0 <= i < |keys| ==> keys[i] in m)
  }

  function Bump<K>(m: map<K, nat>, k: K): map<K, nat> {
    m[k := (if k in m then m[k] else 0) + 1]
  }

  lemma {:induction false} CountPositive<K>(keys: seq<K>, k: K)
    ensures Count(keys, k) > 0 <==> k in keys
  {
    if keys != [] {
      CountPositive(keys[..|keys| - 1], k);
      assert keys == keys[..|keys| - 1] + [keys[|keys| - 1]];
    }
  }

  lemma BumpTallies<K>(m: map<K, nat>, keys: seq<K>, k: K)
    requires Tallies(m, keys)
    ensures Tallies(Bump(m, k), keys + [k])
  {
    assert (keys + [k])[..|keys|] == keys;
    CountPositive(keys, k);
  }

  /** Copies a map into a vector in the map's own, unspecified, order. */
  method Flatten<K(==)>(m: map<K, nat>, ghost keys: seq<K>) returns (counts: seq<(K, nat)>)
    requires Tallies(m, keys)
    ensures IsTally(counts, keys)
  {
    var todo := m.Keys;
    counts := [];
    while todo != {}
      invariant todo <= m.Keys
      invariant forall i, j :: 0 <= i < j < |counts| ==> counts[i].0 != counts[j].0
      invariant forall i :: 0 <= i < |counts| ==> counts[i].0 in m && counts[i].0 !in todo && counts[i].1 == m[counts[i].0]
      invariant forall k :: k in m && k !in todo ==> Lists(counts, k)
      decreases todo
    {
      var k :| k in todo;
      ghost var before := counts;
      counts := counts + [(k, m[k])];
      todo := todo - {k};
      assert counts[|before|].0 == k;
      forall x | x in m && x !in todo
        ensures Lists(counts, x)
      {
        if x != k {
          assert Lists(before, x);
          var j :| 0 <= j < |before| && before[j].0 == x;
          assert counts[j].0 == x;
        }
      }
    }
  }

  function InsertByStart(c: (int, nat), counts: seq<(int, nat)>): (r: seq<(int, nat)>)
    ensures multiset(r) == multiset(counts) + multiset{c}
  {
    if counts == [] || c.0 < counts[0].0 then [c] + counts
    else
      assert counts == [counts[0]] + counts[1..];
      [counts[0]] + InsertByStart(c, counts[1..])
  }

  /** The final sort of the buckets by their start. */
  function SortByStart(counts: seq<(int, nat)>): (r: seq<(int, nat)>)
    ensures multiset(r) == multiset(counts)
  {
    if counts == [] then []
    else
      assert counts == [counts[0]] + counts[1..];
      InsertByStart(counts[0], SortByStart(counts[1..]))
  }

  lemma {:induction false} InsertByStartAscending(c: (int, nat), counts: seq<(int, nat)>)
    requires Ascending(counts) && forall i :: 0 <= i < |counts| ==> counts[i].0 != c.0
    ensures Ascending(InsertByStart(c, counts))
  {
    if counts != [] && c.0 > counts[0].0 {
      var rest := InsertByStart(c, counts[1..]);
      InsertByStartAscending(c, counts[1..]);
      forall x | x in rest
        ensures counts[0].0 < x.0
      {
        assert x in multiset(rest);
        assert x == c || x in counts[1..];
      }
    }
  }

  lemma {:induction false} SortByStartAscending(counts: seq<(int, nat)>)
    requires forall i, j :: 0 <= i < j < |counts| ==> counts[i].0 != counts[j].0
    ensures Ascending(SortByStart(counts))
  {
    if counts != [] {
      SortByStartAscending(counts[1..]);
      var rest := SortByStart(counts[1..]);
      forall i | 0 <= i < |rest|
        ensures rest[i].0 != counts[0].0
      {
        assert rest[i] in multiset(rest);
        assert rest[i] in counts[1..];
      }
      InsertByStartAscending(counts[0], rest);
    }
  }

  lemma {:induction false} SortByStartTallies(counts: seq<(int, nat)>, keys: seq<int>)
    requires IsTally(counts, keys)
    ensures IsTally(SortByStart(counts), keys) && Ascending(SortByStart(counts))
  {
    SortByStartAscending(counts);
    var r := SortByStart(counts);
    assert forall x :: x in r <==> x in multiset(r);
    assert forall x :: x in counts <==> x in multiset(counts);
    forall i | 0 <= i < |r|
      ensures r[i].1 == Count(keys, r[i].0) > 0
    {
      assert r[i] in counts;
    }
    forall i | 0 <= i < |keys|
      ensures Lists(r, keys[i])
    {
      assert Lists(counts, keys[i]);
      var j :| 0 <= j < |counts| && counts[j].0 == keys[i];
      assert counts[j] in r;
    }
  }

  // ----- the repository -----

  /** What the aggregate query promises about the events it selects. */
  ghost predicate Describes(stats: Stats, sel: seq<ClickEvent>, bucket: Option<BucketSize>) {
    && stats.totalAttempts == |sel|
    && stats.successfulRedirects == Redirects(sel)
    && IsTally(stats.statusCodeCounts, StatusKeys(sel))
    && IsTally(stats.domainCounts, DomainKeys(sel))
    && Ascending(stats.timeBuckets)
    && (bucket.Some? ==> IsTally(stats.timeBuckets, BucketKeys(sel, bucket.value)))
    && (bucket.None? ==> stats.timeBuckets == [])
  }

  function Kept(events: seq<ClickEvent>, cutoff: int): seq<ClickEvent> {
    if events == [] then [] else
      Kept(events[..|events| - 1], cutoff)
      + (if events[|events| - 1].occurredAt < cutoff then [] else [events[|events| - 1]])
  }

  /** The running totals and the three counting maps of the query loop. */
  datatype Acc = Acc(total: nat, redirects: nat, byStatus: map<int, nat>, byDomain: map<string, nat>, byBucket: map<int, nat>)

  ghost function KeysOf(sel: seq<ClickEvent>, bucket: Option<BucketSize>): seq<int> {
    if bucket.Some? then BucketKeys(sel, bucket.value) else []
  }

  ghost predicate Counted(acc: Acc, sel: seq<ClickEvent>, bucket: Option<BucketSize>) {
    && acc.total == |sel| && acc.redirects == Redirects(sel)
    && Tallies(acc.byStatus, StatusKeys(sel)) && Tallies(acc.byDomain, DomainKeys(sel))
    && Tallies(acc.byBucket, KeysOf(sel, bucket))
  }

  method Observe(acc: Acc, e: ClickEvent, bucket: Option<BucketSize>, ghost sel: seq<ClickEvent>) returns (r: Acc)
    requires Counted(acc, sel, bucket)
    ensures Counted(r, sel + [e], bucket)
  {
    KeysLast(sel, e);
    r := acc.(total := acc.total + 1);
    if e.statusCode >= 300 && e.statusCode < 400 {
      r := r.(redirects := r.redirects + 1);
    }
    BumpTallies(acc.byStatus, StatusKeys(sel), e.statusCode);
    r := r.(byStatus := Bump(acc.byStatus, e.statusCode));
    BumpTallies(acc.byDomain, DomainKeys(sel), e.domain);
    r := r.(byDomain := Bump(acc.byDomain, e.domain));
    if bucket.Some? {
      var start := BucketStart(e.occurredAt, bucket.value);
      BumpTallies(acc.byBucket, BucketKeys(sel, bucket.value), start);
      r := r.(byBucket := Bump(acc.byBucket, start));
    }
    ObserveCounts(r, sel, e, bucket);
  }

  lemma {:induction false} ObserveCounts(r: Acc, sel: seq<ClickEvent>, e: ClickEvent, bucket: Option<BucketSize>)
    requires r.total == |sel| + 1 && r.redirects == Redirects(sel) + (if IsRedirect(e) then 1 else 0)
    requires Tallies(r.byStatus, StatusKeys(sel) + [e.statusCode])
    requires Tallies(r.byDomain, DomainKeys(sel) + [e.domain])
    requires Tallies(r.byBucket, if bucket.Some? then BucketKeys(sel, bucket.value) + [BucketStart(e.occurredAt, bucket.value)] else [])
    ensures Counted(r, sel + [e], bucket)
  {
    KeysLast(sel, e);
  }

  class ClickEventRepository {
    var events: seq<ClickEvent>

    constructor ()
      ensures events == []
    {
      events := [];
    }

    method InsertBatch(batch: seq<ClickEvent>) returns (ok: bool)
      modifies this
      ensures ok && events == old(events) + batch
    {
      events := events + batch;
      return true;
    }

    method GetAggregateStats(q: Query) returns (stats: Stats)
      ensures Describes(stats, Selected(events, q), q.bucket)
    {
      var acc := Acc(0, 0, map[], map[], map[]);
      for i := 0 to |events|
        invariant Counted(acc, Selected(events[..i], q), q.bucket)
      {
        var e := events[i];
        SelectedNext(events, i, q);
        if q.slug.Some? && e.slug != q.slug.value {
          continue;
        }
        if q.linkId.Some? && e.linkId != q.linkId.value {
          continue;
        }
        if e.occurredAt < q.from || e.occurredAt >= q.to {
          continue;
        }
        acc := Observe(acc, e, q.bucket, Selected(events[..i], q));
      }
      assert events[..|events|] == events;
      ghost var sel := Selected(events, q);
      var statusCounts := Flatten(acc.byStatus, StatusKeys(sel));
      var domainCounts := Flatten(acc.byDomain, DomainKeys(sel));
      var buckets := Flatten(acc.byBucket, KeysOf(sel, q.bucket));
      SortByStartTallies(buckets, KeysOf(sel, q.bucket));
      stats := Stats(acc.total, acc.redirects, statusCounts, domainCounts, SortByStart(buckets));
      NoBuckets(stats.timeBuckets, q.bucket);
    }

    method DeleteOlderThan(cutoff: int) returns (ok: bool)
      modifies this
      ensures ok && events == Kept(old(events), cutoff)
    {
      var kept := [];
      for i := 0 to |events|
        invariant events == old(events) && kept == Kept(events[..i], cutoff)
      {
        assert events[..i + 1][..i] == events[..i];
        if !(events[i].occurredAt < cutoff) {
          kept := kept + [events[i]];
        }
      }
      assert events[..|events|] == events;
      events := kept;
      return true;
    }
  }

  lemma {:induction false} SelectedNext(events: seq<ClickEvent>, i: nat, q: Query)
    requires i < |events|
    ensures Selected(events[..i + 1], q) == Selected(events[..i], q) + (if Matches(q, events[i]) then [events[i]] else [])
    ensures !Matches(q, events[i]) ==> Selected(events[..i + 1], q) == Selected(events[..i], q)
  {
    assert events[..i + 1][..i] == events[..i];
  }

  lemma KeysLast(sel: seq<ClickEvent>, e: ClickEvent)
    ensures StatusKeys(sel + [e]) == StatusKeys(sel) + [e.statusCode]
    ensures DomainKeys(sel + [e]) == DomainKeys(sel) + [e.domain]
    ensures forall b :: BucketKeys(sel + [e], b) == BucketKeys(sel, b) + [BucketStart(e.occurredAt, b)]
    ensures (sel + [e])[..|sel|] == sel
  {
  }

  lemma NoBuckets(counts: seq<(int, nat)>, bucket: Option<BucketSize>)
    requires bucket.None? ==> IsTally(counts, [])
    ensures bucket.None? ==> counts == []
  {
    assert bucket.None? ==> |counts| == 0 || Count<int>([], counts[0].0) > 0;
  }

  // ----- sums -----

  /** Sum of the counts whose key `f` sends to `d`. */
  function SumWhere<K, D(==)>(counts: seq<(K, nat)>, f: K -> D, d: D): nat {
    if counts == [] then 0 else
      var last := counts[|counts| - 1];
      SumWhere(counts[..|counts| - 1], f, d) + (if f(last.0) == d then last.1 else 0)
  }

  function Image<K, D>(keys: seq<K>, f: K -> D): (r: seq<D>)
    ensures |r| == |keys| && forall i :: 0 <= i < |keys| ==> r[i] == f(keys[i])
  {
    seq(|keys|, i requires 0 <= i < |keys| => f(keys[i]))
  }

  ghost function KeySet<K(!new)>(counts: seq<(K, nat)>): set<K> {
    set i | 0 <= i < |counts| :: counts[i].0
  }

  /** Number of positions whose key is in `s` and is sent to `d`. */
  ghost function CountIn<K(!new), D>(keys: seq<K>, s: set<K>, f: K -> D, d: D): nat {
    if keys == [] then 0 else
      var last := keys[|keys| - 1];
      CountIn(keys[..|keys| - 1], s, f, d) + (if last in s && f(last) == d then 1 else 0)
  }

  lemma {:induction false} CountInExtend<K(!new), D>(keys: seq<K>, s: set<K>, k: K, f: K -> D, d: D)
    requires k !in s
    ensures CountIn(keys, s + {k}, f, d) == CountIn(keys, s, f, d) + (if f(k) == d then Count(keys, k) else 0)
  {
    if keys != [] {
      CountInExtend(keys[..|keys| - 1], s, k, f, d);
    }
  }

  lemma {:induction false} CountInNone<K(!new), D>(keys: seq<K>, f: K -> D, d: D)
    ensures CountIn(keys, {}, f, d) == 0
  {
    if keys != [] {
      CountInNone(keys[..|keys| - 1], f, d);
    }
  }

  lemma {:induction false} CountInAll<K(!new), D>(keys: seq<K>, s: set<K>, f: K -> D, d: D)
    requires forall i :: 0 <= i < |keys| ==> keys[i] in s
    ensures CountIn(keys, s, f, d) == Count(Image(keys, f), d)
  {
    if keys != [] {
      var n := |keys| - 1;
      CountInAll(keys[..n], s, f, d);
      assert Image(keys, f)[..n] == Image(keys[..n], f);
    }
  }

  lemma {:induction false} SumIsCountIn<K(!new), D>(counts: seq<(K, nat)>, keys: seq<K>, f: K -> D, d: D)
    requires forall i, j :: 0 <= i < j < |counts| ==> counts[i].0 != counts[j].0
    requires forall i :: 0 <= i < |counts| ==> counts[i].1 == Count(keys, counts[i].0)
    ensures SumWhere(counts, f, d) == CountIn(keys, KeySet(counts), f, d)
  {
    if counts == [] {
      assert KeySet(counts) == {};
      CountInNone(keys, f, d);
    } else {
      var n := |counts| - 1;
      SumIsCountIn(counts[..n], keys, f, d);
      assert KeySet(counts) == KeySet(counts[..n]) + {counts[n].0};
      CountInExtend(keys, KeySet(counts[..n]), counts[n].0, f, d);
    }
  }

  /** Regrouping a tally: the counts of all keys that fall together add up to the coarser count. */
  lemma {:induction false} TallyRegroups<K(!new), D>(counts: seq<(K, nat)>, keys: seq<K>, f: K -> D, d: D)
    requires IsTally(counts, keys)
    ensures SumWhere(counts, f, d) == Count(Image(keys, f), d)
  {
    SumIsCountIn(counts, keys, f, d);
    forall i | 0 <= i < |keys|
      ensures keys[i] in KeySet(counts)
    {
      assert Lists(counts, keys[i]);
      var j :| 0 <= j < |counts| && counts[j].0 == keys[i];
    }
    CountInAll(keys, KeySet(counts), f, d);
  }

  function Total<K>(counts: seq<(K, nat)>): nat {
    SumWhere(counts, (k: K) => 0, 0)
  }

  lemma {:induction false} CountZeros(zeros: seq<int>)
    requires forall i :: 0 <= i < |zeros| ==> zeros[i] == 0
    ensures Count(zeros, 0) == |zeros|
  {
    if zeros != [] {
      CountZeros(zeros[..|zeros| - 1]);
    }
  }

  /** Each breakdown adds up to the number of attempts. */
  lemma BreakdownsSumToTotal(stats: Stats, sel: seq<ClickEvent>, bucket: Option<BucketSize>)
    requires Describes(stats, sel, bucket)
    ensures Total(stats.statusCodeCounts) == stats.totalAttempts
    ensures Total(stats.domainCounts) == stats.totalAttempts
    ensures bucket.Some? ==> Total(stats.timeBuckets) == stats.totalAttempts
  {
    TallyRegroups(stats.statusCodeCounts, StatusKeys(sel), (k: int) => 0, 0);
    TallyRegroups(stats.domainCounts, DomainKeys(sel), (k: string) => 0, 0);
    CountZeros(Image(StatusKeys(sel), (k: int) => 0));
    CountZeros(Image(DomainKeys(sel), (k: string) => 0));
    if bucket.Some? {
      TallyRegroups(stats.timeBuckets, BucketKeys(sel, bucket.value), (k: int) => 0, 0);
      CountZeros(Image(BucketKeys(sel, bucket.value), (k: int) => 0));
    }
  }

  // ----- time buckets -----

  lemma DivNested(n: nat)
    ensures n / 3600 * 3600 / 86400 == n / 86400
    ensures n / 86400 * 86400 / 604800 == n / 604800
  {
    var h, d := n / 3600, n / 86400;
    assert h / 24 == d;
    assert h * 3600 / 86400 == h / 24;
    assert d / 7 == n / 604800;
    assert d * 86400 / 604800 == d / 7;
  }

  lemma AlignNested(seconds: int)
    ensures Align(Align(seconds, Hour), Day) == Align(seconds, Day)
    ensures Align(Align(seconds, Day), Week) == Align(seconds, Week)
  {
    DivNested(if seconds >= 0 then seconds else -seconds);
  }

  /** Hour buckets of a day add up to the day bucket, and day buckets of a week to the week bucket. */
  lemma {:induction false} BucketsRollUp(sel: seq<ClickEvent>, hours: seq<(int, nat)>, days: seq<(int, nat)>, day: int, week: int)
    requires IsTally(hours, BucketKeys(sel, Hour)) && IsTally(days, BucketKeys(sel, Day))
    ensures SumWhere(hours, (s: int) => Align(s, Day), day) == Count(BucketKeys(sel, Day), day)
    ensures SumWhere(days, (s: int) => Align(s, Week), week) == Count(BucketKeys(sel, Week), week)
  {
    TallyRegroups(hours, BucketKeys(sel, Hour), (s: int) => Align(s, Day), day);
    TallyRegroups(days, BucketKeys(sel, Day), (s: int) => Align(s, Week), week);
    forall i | 0 <= i < |sel|
      ensures Image(BucketKeys(sel, Hour), (s: int) => Align(s, Day))[i] == BucketKeys(sel, Day)[i]
      ensures Image(BucketKeys(sel, Day), (s: int) => Align(s, Week))[i] == BucketKeys(sel, Week)[i]
    {
      AlignNested(WholeSeconds(sel[i].occurredAt));
    }
    assert Image(BucketKeys(sel, Hour), (s: int) => Align(s, Day)) == BucketKeys(sel, Day);
    assert Image(BucketKeys(sel, Day), (s: int) => Align(s, Week)) == BucketKeys(sel, Week);
  }

  predicate Contains(start: int, b: BucketSize, ticks: int) {
    start * TICKS_PER_SECOND <= ticks < (start + SecondsIn(b)) * TICKS_PER_SECOND
  }

  /** An hour of 60 minutes of 60 seconds, a day of 24 hours, a week of 7 days. */
  function SecondsIn(b: BucketSize): int {
    match b
    case Hour => 60 * 60
    case Day => 24 * (60 * 60)
    case Week => 7 * (24 * (60 * 60))
  }

  lemma WidthsAreExact(b: BucketSize)
    ensures Width(b) == SecondsIn(b)
  {
  }

  /** Dividing by the second and then by the bucket is dividing by the bucket in ticks. */
  lemma DivDiv(n: nat, b: BucketSize)
    ensures n / TICKS_PER_SECOND / Width(b) == n / (Width(b) * TICKS_PER_SECOND)
  {
    var s := n / TICKS_PER_SECOND;
    match b
    case Hour =>
      var q := n / 3_600_000_000_000;
      assert q * 3600 <= s < (q + 1) * 3600;
    case Day =>
      var q := n / 86_400_000_000_000;
      assert q * 86400 <= s < (q + 1) * 86400;
    case Week =>
      var q := n / 604_800_000_000_000;
      assert q * 604800 <= s < (q + 1) * 604800;
  }

  /** The bucket start in ticks: a whole number of bucket widths, counted toward zero. */
  function StartTicks(ticks: int, b: BucketSize): int {
    TruncDiv(ticks, Width(b) * TICKS_PER_SECOND) * (Width(b) * TICKS_PER_SECOND)
  }

  lemma StartTicksFromEpoch(n: nat, b: BucketSize)
    ensures n / TICKS_PER_SECOND / Width(b) * Width(b) * TICKS_PER_SECOND
         == n / (Width(b) * TICKS_PER_SECOND) * (Width(b) * TICKS_PER_SECOND)
  {
    DivDiv(n, b);
    var q := n / (Width(b) * TICKS_PER_SECOND);
    match b
    case Hour => assert q * 3600 * TICKS_PER_SECOND == q * 3_600_000_000_000;
    case Day => assert q * 86400 * TICKS_PER_SECOND == q * 86_400_000_000_000;
    case Week => assert q * 604800 * TICKS_PER_SECOND == q * 604_800_000_000_000;
  }

  lemma AlignIsMultiple(seconds: int, b: BucketSize)
    ensures Align(seconds, b) % Width(b) == 0
  {
  }

  lemma BucketStartTicks(ticks: int, b: BucketSize)
    ensures BucketStart(ticks, b) * TICKS_PER_SECOND == StartTicks(ticks, b)
  {
    var n := if ticks >= 0 then ticks else -ticks;
    StartTicksFromEpoch(n, b);
    var start := n / TICKS_PER_SECOND / Width(b) * Width(b);
    assert BucketStart(ticks, b) == if ticks >= 0 then start else -start;
  }

  /** Truncated division lands at or below a number exactly when it is not negative or a multiple. */
  lemma TruncatedBelow(n: int, w: int)
    requires w == 3_600_000_000_000 || w == 86_400_000_000_000 || w == 604_800_000_000_000
    ensures TruncDiv(n, w) * w <= n < TruncDiv(n, w) * w + w <==> n >= 0 || n % w == 0
  {
  }

  /**
   Bucket starts are multiples of the width.  A bucket contains its event exactly when the event is
   not before the epoch or sits exactly on a bucket boundary: before the epoch, truncation toward
   zero puts an event into the bucket that starts after it.
   */
  lemma BucketContainsExactly(ticks: int, b: BucketSize)
    ensures BucketStart(ticks, b) % Width(b) == 0
    ensures Contains(BucketStart(ticks, b), b, ticks)
            <==> ticks >= 0 || ticks % (Width(b) * TICKS_PER_SECOND) == 0
  {
    WidthsAreExact(b);
    AlignIsMultiple(WholeSeconds(ticks), b);
    BucketStartTicks(ticks, b);
    TruncatedBelow(ticks, Width(b) * TICKS_PER_SECOND);
  }

  lemma BucketBeforeEpochFails()
    ensures BucketStart(-1, Hour) == 0 && !Contains(0, Hour, -1)
  {
  }

  // ----- ranges and retention -----

  /** The figures of a selection, each breakdown at one key. */
  datatype Profile = Profile(total: nat, redirects: nat, status: nat, domain: nat, bucket: nat)

  datatype Keys = Keys(status: int, domain: string, size: BucketSize, start: int)

  function ProfileOf(sel: seq<ClickEvent>, k: Keys): Profile {
    Profile(|sel|, Redirects(sel), Count(StatusKeys(sel), k.status), Count(DomainKeys(sel), k.domain),
            Count(BucketKeys(sel, k.size), k.start))
  }

  function One(e: ClickEvent, k: Keys): Profile {
    Profile(1, if IsRedirect(e) then 1 else 0, if e.statusCode == k.status then 1 else 0,
            if e.domain == k.domain then 1 else 0, if BucketStart(e.occurredAt, k.size) == k.start then 1 else 0)
  }

  function Plus(a: Profile, b: Profile): Profile {
    Profile(a.total + b.total, a.redirects + b.redirects, a.status + b.status, a.domain + b.domain, a.bucket + b.bucket)
  }

  lemma ProfileLast(sel: seq<ClickEvent>, e: ClickEvent, k: Keys)
    ensures ProfileOf(sel + [e], k) == Plus(ProfileOf(sel, k), One(e, k))
  {
    KeysLast(sel, e);
    assert (StatusKeys(sel) + [e.statusCode])[..|sel|] == StatusKeys(sel);
    assert (DomainKeys(sel) + [e.domain])[..|sel|] == DomainKeys(sel);
    assert (BucketKeys(sel, k.size) + [BucketStart(e.occurredAt, k.size)])[..|sel|] == BucketKeys(sel, k.size);
  }

  /** The same figures, counted event by event without selecting first. */
  function Figures(events: seq<ClickEvent>, q: Query, k: Keys): Profile {
    if events == [] then Profile(0, 0, 0, 0, 0) else
      var n := |events| - 1;
      var before := Figures(events[..n], q, k);
      if Matches(q, events[n]) then Plus(before, One(events[n], k)) else before
  }

  lemma {:induction false} FiguresOfSelection(events: seq<ClickEvent>, q: Query, k: Keys)
    ensures Figures(events, q, k) == ProfileOf(Selected(events, q), k)
  {
    if events != [] {
      var n := |events| - 1;
      FiguresOfSelection(events[..n], q, k);
      if Matches(q, events[n]) {
        ProfileLast(Selected(events[..n], q), events[n], k);
      } else {
        assert Selected(events, q) == Selected(events[..n], q);
      }
    }
  }

  lemma {:induction false} FiguresSplit(events: seq<ClickEvent>, q: Query, mid: int, k: Keys)
    requires q.from <= mid <= q.to
    ensures Figures(events, q, k) == Plus(Figures(events, q.(to := mid), k), Figures(events, q.(from := mid), k))
  {
    if events != [] {
      FiguresSplit(events[..|events| - 1], q, mid, k);
    }
  }

  /** Cutting a range in two: every figure of the whole is the sum of the two parts. */
  lemma {:induction false} AdjacentRanges(events: seq<ClickEvent>, q: Query, mid: int, k: Keys)
    requires q.from <= mid <= q.to
    ensures ProfileOf(Selected(events, q), k)
         == Plus(ProfileOf(Selected(events, q.(to := mid)), k), ProfileOf(Selected(events, q.(from := mid)), k))
  {
    FiguresSplit(events, q, mid, k);
    FiguresOfSelection(events, q, k);
    FiguresOfSelection(events, q.(to := mid), k);
    FiguresOfSelection(events, q.(from := mid), k);
  }

  /** What a query asks for: the slug and the link id if given, and a time from `from` up to but not including `to`. */
  ghost predicate IsAskedFor(e: ClickEvent, q: Query) {
    && (q.slug.None? || q.slug == Some(e.slug)) && (q.linkId.None? || q.linkId == Some(e.linkId))
    && e.occurredAt >= q.from && !(e.occurredAt >= q.to)
  }

  /** The stored events that a query asks for, by their places. */
  ghost function AskedAt(events: seq<ClickEvent>, q: Query): set<int> {
    set i | 0 <= i < |events| && IsAskedFor(events[i], q)
  }

  ghost function RedirectsAskedAt(events: seq<ClickEvent>, q: Query): set<int> {
    set i | 0 <= i < |events| && IsAskedFor(events[i], q) && 300 <= events[i].statusCode <= 399
  }

  /** The totals of a query count exactly the events it asks for, and among them the ones with a code of 300 to 399. */
  lemma {:induction false} TotalsAreExact(events: seq<ClickEvent>, q: Query, stats: Stats)
    requires Describes(stats, Selected(events, q), q.bucket)
    ensures stats.totalAttempts == |AskedAt(events, q)| && stats.successfulRedirects == |RedirectsAskedAt(events, q)|
  {
    SelectedCounts(events, q);
  }

  lemma {:induction false} SelectedCounts(events: seq<ClickEvent>, q: Query)
    ensures |Selected(events, q)| == |AskedAt(events, q)| && Redirects(Selected(events, q)) == |RedirectsAskedAt(events, q)|
  {
    if events != [] {
      var n := |events| - 1;
      SelectedCounts(events[..n], q);
      var before := Selected(events[..n], q);
      AskedLast(events, q);
      if Matches(q, events[n]) {
        assert (before + [events[n]])[..|before|] == before;
      } else {
        assert before + [] == before;
      }
    }
  }

  lemma {:induction false} AskedLast(events: seq<ClickEvent>, q: Query)
    requires events != []
    ensures var n := |events| - 1;
            var asked := IsAskedFor(events[n], q);
            && |AskedAt(events, q)| == |AskedAt(events[..n], q)| + (if asked then 1 else 0)
            && |RedirectsAskedAt(events, q)|
               == |RedirectsAskedAt(events[..n], q)| + (if asked && 300 <= events[n].statusCode <= 399 then 1 else 0)
  {
    var n := |events| - 1;
    var asked := IsAskedFor(events[n], q);
    assert AskedAt(events, q) == AskedAt(events[..n], q) + (if asked then {n} else {});
    assert RedirectsAskedAt(events, q)
        == RedirectsAskedAt(events[..n], q) + (if asked && 300 <= events[n].statusCode <= 399 then {n} else {});
  }

  /** Retention removes everything older, and changes no query that starts at or after the cutoff. */
  lemma {:induction false} RetentionKeepsQueries(events: seq<ClickEvent>, cutoff: int, q: Query)
    requires cutoff <= q.from
    ensures Selected(Kept(events, cutoff), q) == Selected(events, q)
    ensures forall e :: e in Kept(events, cutoff) ==> e.occurredAt >= cutoff
  {
    if events != [] {
      var n := |events| - 1;
      RetentionKeepsQueries(events[..n], cutoff, q);
      if events[n].occurredAt >= cutoff {
        var kept := Kept(events, cutoff);
        assert kept[..|kept| - 1] == Kept(events[..n], cutoff);
      } else {
        assert Kept(events, cutoff) == Kept(events[..n], cutoff);
      }
    }
  }
}
