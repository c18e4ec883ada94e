/**
 Fixed-window rate limiter held in memory (src/storage/inmemory/in_memory_rate_limiter.cpp).

 Times are clock ticks (nanoseconds since the epoch); a window is given in seconds, as in the
 source, and turned into ticks where it is added to a time.  The clock reading of a call is a
 parameter.
 */
module RateLimiter {
  import opened Clock

  datatype Bucket = Bucket(count: nat, resetAt: int)

  datatype Decision = Decision(allowed: bool, remaining: nat, resetAt: int)

  datatype LimitError = NoError | InvalidKey | InvalidPolicy | Unavailable

  /** What `buckets_[key]` default-constructs for a key seen for the first time. */
  const FRESH := Bucket(0, 0)

  function Lookup(buckets: map<string, Bucket>, key: string): Bucket {
    if key in buckets then buckets[key] else FRESH
  }

  /** The locked part of Allow on one bucket; `span` is the window in ticks. */
  function Admit(b: Bucket, limit: nat, span: int, now: int): (Bucket, Decision) {
    var b1 := if b.count == 0 || now >= b.resetAt then Bucket(0, now + span) else b;
    if limit == 0 || b1.count >= limit then
      (b1, Decision(false, 0, b1.resetAt))
    else
      (Bucket(b1.count + 1, b1.resetAt), Decision(true, limit - (b1.count + 1), b1.resetAt))
  }

  class InMemoryRateLimiter {
    var buckets: map<string, Bucket>

    constructor ()
      ensures buckets == map[]
    {
      buckets := map[];
    }

    method Allow(key: string, limit: nat, window: int, now: int)
      returns (d: Decision, error: LimitError)
      modifies this
      ensures error == if key == "" then InvalidKey else if window <= 0 then InvalidPolicy else NoError
      ensures error.NoError? ==>
                var (b, verdict) := Admit(Lookup(old(buckets), key), limit, window * TICKS_PER_SECOND, now);
                buckets == old(buckets)[key := b] && d == verdict
      ensures !error.NoError? ==> buckets == old(buckets) && d == Decision(false, 0, now)
    {
      if key == "" {
        return Decision(false, 0, now), InvalidKey;
      }
      if window <= 0 {
        return Decision(false, 0, now), InvalidPolicy;
      }
      var bucket := if key in buckets then buckets[key] else FRESH;
      if bucket.count == 0 || now >= bucket.resetAt {
        bucket := Bucket(0, now + window * TICKS_PER_SECOND);
      }
      error := NoError;
      if limit == 0 || bucket.count >= limit {
        d := Decision(false, 0, bucket.resetAt);
      } else {
        bucket := bucket.(count := bucket.count + 1);
        d := Decision(true, limit - bucket.count, bucket.resetAt);
      }
      buckets := buckets[key := bucket];
    }
  }

  // ----- runs on one key with a fixed policy -----

  /** The bucket and the decisions after requests at the given times. */
  function Serve(times: seq<int>, limit: nat, span: int): (r: (Bucket, seq<Decision>))
    ensures |r.1| == |times|
  {
    if times == [] then (FRESH, []) else
      var n := |times| - 1;
      var (b, ds) := Serve(times[..n], limit, span);
      var (b', d) := Admit(b, limit, span, times[n]);
      (b', ds + [d])
  }

  /** Number of granted requests with a time in [lo, hi). */
  function Grants(times: seq<int>, ds: seq<Decision>, lo: int, hi: int): nat
    requires |times| == |ds|
  {
    if times == [] then 0 else
      var n := |times| - 1;
      Grants(times[..n], ds[..n], lo, hi) + (if ds[n].allowed && lo <= times[n] < hi then 1 else 0)
  }

  ghost predicate NonDecreasing(times: seq<int>) {
    forall i, j :: 0 <= i < j < |times| ==> times[i] <= times[j]
  }

  lemma {:induction false} ServeLast(times: seq<int>, limit: nat, span: int)
    requires times != []
    ensures var n := |times| - 1;
            var (b, ds) := Serve(times[..n], limit, span);
            var (b', d) := Admit(b, limit, span, times[n]);
            Serve(times, limit, span) == (b', ds + [d]) && (ds + [d])[..n] == ds
  {
  }

  /** Decisions never change once made: a prefix of the requests gets a prefix of the decisions. */
  lemma {:induction false} ServePrefix(times: seq<int>, k: nat, limit: nat, span: int)
    requires k <= |times|
    ensures Serve(times[..k], limit, span).1 == Serve(times, limit, span).1[..k]
  {
    if k == |times| {
      assert times[..k] == times;
    } else {
      var n := |times| - 1;
      ServePrefix(times[..n], k, limit, span);
      assert times[..n][..k] == times[..k];
      ServeLast(times, limit, span);
    }
  }

  lemma {:induction false} GrantsNarrow(times: seq<int>, ds: seq<Decision>, lo: int, hi: int, lo': int, hi': int)
    requires |times| == |ds|
    requires lo' <= lo && hi <= hi'
    ensures Grants(times, ds, lo, hi) <= Grants(times, ds, lo', hi')
  {
    if times != [] {
      var n := |times| - 1;
      GrantsNarrow(times[..n], ds[..n], lo, hi, lo', hi');
    }
  }

  lemma {:induction false} GrantsSplit(times: seq<int>, ds: seq<Decision>, lo: int, mid: int, hi: int)
    requires |times| == |ds|
    requires lo <= mid <= hi
    ensures Grants(times, ds, lo, hi) == Grants(times, ds, lo, mid) + Grants(times, ds, mid, hi)
  {
    if times != [] {
      var n := |times| - 1;
      GrantsSplit(times[..n], ds[..n], lo, mid, hi);
    }
  }

  lemma {:induction false} NoGrantsFrom(times: seq<int>, ds: seq<Decision>, lo: int, hi: int)
    requires |times| == |ds|
    requires forall i :: 0 <= i < |times| ==> times[i] < lo
    ensures Grants(times, ds, lo, hi) == 0
  {
    if times != [] {
      var n := |times| - 1;
      NoGrantsFrom(times[..n], ds[..n], lo, hi);
    }
  }

  /**
   The invariant of a run: the bucket counts exactly the grants of the current window, and the
   window contains the last request.
   */
  lemma {:induction false} BucketCountsWindow(times: seq<int>, limit: nat, span: int)
    requires times != [] && limit > 0 && span > 0 && NonDecreasing(times)
    ensures var (b, ds) := Serve(times, limit, span);
            && 1 <= b.count <= limit
            && b.resetAt - span <= times[|times| - 1] < b.resetAt
            && b.count == Grants(times, ds, b.resetAt - span, b.resetAt)
            && ds[|times| - 1].resetAt == b.resetAt
  {
    var n := |times| - 1;
    var now := times[n];
    var (b, ds) := Serve(times[..n], limit, span);
    var (b', d) := Admit(b, limit, span, now);
    ServeLast(times, limit, span);
    if n == 0 {
      assert Grants(times[..n], ds, b'.resetAt - span, b'.resetAt) == 0;
    } else {
      BucketCountsWindow(times[..n], limit, span);
      if now >= b.resetAt {
        NoGrantsFrom(times[..n], ds, now, now + span);
      }
    }
  }

  /**
   Every decision is the one a reference limiter would make that looks at the whole history: count
   the earlier grants of the window the decision reports, grant exactly when fewer than `limit`
   were made, and report what is left.
   */
  lemma {:induction false} DecisionIsExact(times: seq<int>, i: nat, limit: nat, span: int)
    requires i < |times| && limit > 0 && span > 0 && NonDecreasing(times)
    ensures var ds := Serve(times, limit, span).1;
            var reset := ds[i].resetAt;
            var used := Grants(times[..i], ds[..i], reset - span, reset);
            && reset - span <= times[i] < reset
            && used <= limit
            && ds[i] == if used < limit then Decision(true, limit - used - 1, reset) else Decision(false, 0, reset)
  {
    var ds := Serve(times, limit, span).1;
    var prefix := times[..i + 1];
    ServePrefix(times, i + 1, limit, span);
    ServePrefix(times, i, limit, span);
    assert prefix[..i] == times[..i];
    assert ds[..i + 1][..i] == ds[..i];
    BucketCountsWindow(prefix, limit, span);
    ServeLast(prefix, limit, span);
    if i > 0 {
      BucketCountsWindow(prefix[..i], limit, span);
    }
  }

  /** Grants just before the current window starts come from a single earlier window. */
  lemma {:induction false} GrantsBeforeWindow(times: seq<int>, limit: nat, span: int, a: int)
    requires times != [] && limit > 0 && span > 0 && NonDecreasing(times)
    requires a > Serve(times, limit, span).0.resetAt - 2 * span
    ensures var (b, ds) := Serve(times, limit, span);
            Grants(times, ds, a, b.resetAt - span) <= limit
  {
    var n := |times| - 1;
    var now := times[n];
    var (b, ds) := Serve(times[..n], limit, span);
    var (b', d) := Admit(b, limit, span, now);
    ServeLast(times, limit, span);
    BucketCountsWindow(times, limit, span);
    if n == 0 {
      assert Grants(times[..n], ds, a, b'.resetAt - span) == 0;
    } else {
      BucketCountsWindow(times[..n], limit, span);
      if now >= b.resetAt {
        assert Grants(times[..n], ds, a, now) <= limit by {
          NoGrantsFrom(times[..n], ds, b.resetAt, now);
          if a <= b.resetAt {
            GrantsSplit(times[..n], ds, a, b.resetAt, now);
            GrantsNarrow(times[..n], ds, a, b.resetAt, b.resetAt - span, b.resetAt);
          } else {
            GrantsNarrow(times[..n], ds, a, now, b.resetAt, now);
          }
        }
      } else {
        GrantsBeforeWindow(times[..n], limit, span, a);
      }
    }
  }

  /** No half-open interval as long as the window ever holds more than twice the limit. */
  lemma {:induction false} AtMostTwiceLimit(times: seq<int>, limit: nat, span: int, a: int)
    requires span > 0 && NonDecreasing(times)
    ensures Grants(times, Serve(times, limit, span).1, a, a + span) <= 2 * limit
  {
    if times != [] {
      var n := |times| - 1;
      var now := times[n];
      var (b, ds) := Serve(times, limit, span);
      ServeLast(times, limit, span);
      AtMostTwiceLimit(times[..n], limit, span, a);
      if ds[n].allowed && a <= now < a + span {
        BucketCountsWindow(times, limit, span);
        var start := b.resetAt - span;
        AllBefore(times, b.resetAt, limit, span);
        var hi := if a + span <= b.resetAt then b.resetAt else a + span;
        GrantsNarrow(times, ds, a, a + span, a, hi);
        NoGrantsFrom(times, ds, b.resetAt, hi);
        if a <= start {
          GrantsBeforeWindow(times, limit, span, a);
          GrantsSplit(times, ds, a, start, hi);
          GrantsSplit(times, ds, start, b.resetAt, hi);
        } else {
          GrantsSplit(times, ds, a, b.resetAt, hi);
          GrantsNarrow(times, ds, a, b.resetAt, start, b.resetAt);
        }
      }
    }
  }

  lemma AllBefore(times: seq<int>, t: int, limit: nat, span: int)
    requires times != [] && NonDecreasing(times) && times[|times| - 1] < t
    ensures forall i :: 0 <= i < |times| ==> times[i] < t
  {
  }

  /** A window, once opened, never holds more than `limit` grants, however the run goes on. */
  lemma {:induction false} AtMostLimitPerWindow(times: seq<int>, i: nat, limit: nat, span: int)
    requires i < |times| && span > 0 && NonDecreasing(times)
    ensures var ds := Serve(times, limit, span).1;
            Grants(times, ds, ds[i].resetAt - span, ds[i].resetAt) <= limit
  {
    var n := |times| - 1;
    var (b, ds) := Serve(times, limit, span);
    var reset := ds[i].resetAt;
    ServeLast(times, limit, span);
    if limit == 0 {
      NeverGrants(times, span, reset - span, reset);
    } else {
      BucketCountsWindow(times, limit, span);
      if i < n {
        AtMostLimitPerWindow(times[..n], i, limit, span);
        if reset != b.resetAt {
          WindowsAreDisjoint(times, i, limit, span);
        }
      }
    }
  }

  lemma {:induction false} NeverGrants(times: seq<int>, span: int, lo: int, hi: int)
    ensures Grants(times, Serve(times, 0, span).1, lo, hi) == 0
  {
    if times != [] {
      NeverGrants(times[..|times| - 1], span, lo, hi);
      ServeLast(times, 0, span);
    }
  }

  /** Windows of one key do not overlap: an earlier window ends before the current one starts. */
  lemma {:induction false} WindowsAreDisjoint(times: seq<int>, i: nat, limit: nat, span: int)
    requires i < |times| && limit > 0 && span > 0 && NonDecreasing(times)
    ensures var (b, ds) := Serve(times, limit, span);
            ds[i].resetAt == b.resetAt || ds[i].resetAt <= b.resetAt - span
  {
    var n := |times| - 1;
    ServeLast(times, limit, span);
    if i < n {
      WindowsAreDisjoint(times[..n], i, limit, span);
      BucketCountsWindow(times[..n], limit, span);
    }
  }

  // ----- runs over many keys -----

  datatype Request = Request(key: string, now: int)

  datatype Policy = Policy(limit: nat, window: int)

  /** Serving requests of many keys through the shared `buckets_` map, each key with its own policy. */
  function ServeAll(reqs: seq<Request>, policy: string -> Policy): (r: (map<string, Bucket>, seq<Decision>))
    ensures |r.1| == |reqs|
  {
    if reqs == [] then (map[], []) else
      var n := |reqs| - 1;
      var (buckets, ds) := ServeAll(reqs[..n], policy);
      var Request(key, now) := reqs[n];
      var p := policy(key);
      if key == "" || p.window <= 0 then (buckets, ds + [Decision(false, 0, now)]) else
        var (b, d) := Admit(Lookup(buckets, key), p.limit, p.window * TICKS_PER_SECOND, now);
        (buckets[key := b], ds + [d])
  }

  function TimesOf(reqs: seq<Request>, key: string): seq<int> {
    if reqs == [] then [] else
      var n := |reqs| - 1;
      TimesOf(reqs[..n], key) + (if reqs[n].key == key then [reqs[n].now] else [])
  }

  function DecisionsOf(reqs: seq<Request>, ds: seq<Decision>, key: string): seq<Decision>
    requires |ds| == |reqs|
  {
    if reqs == [] then [] else
      var n := |reqs| - 1;
      DecisionsOf(reqs[..n], ds[..n], key) + (if reqs[n].key == key then [ds[n]] else [])
  }

  /** Keys never affect each other: a key gets what it would get if it were the only one. */
  lemma {:induction false} KeysAreIndependent(reqs: seq<Request>, policy: string -> Policy, key: string)
    requires key != "" && policy(key).window > 0
    ensures var (buckets, ds) := ServeAll(reqs, policy);
            var p := policy(key);
            (Lookup(buckets, key), DecisionsOf(reqs, ds, key))
            == Serve(TimesOf(reqs, key), p.limit, p.window * TICKS_PER_SECOND)
  {
    if reqs != [] {
      var n := |reqs| - 1;
      KeysAreIndependent(reqs[..n], policy, key);
      var (buckets, ds) := ServeAll(reqs[..n], policy);
      assert ServeAll(reqs, policy).1[..n] == ds;
      if reqs[n].key == key {
        var times := TimesOf(reqs, key);
        assert times[..|times| - 1] == TimesOf(reqs[..n], key);
      } else {
        assert TimesOf(reqs, key) == TimesOf(reqs[..n], key);
        assert DecisionsOf(reqs, ServeAll(reqs, policy).1, key) == DecisionsOf(reqs[..n], ds, key);
      }
    }
  }
}
