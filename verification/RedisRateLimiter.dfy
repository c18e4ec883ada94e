/**
 The Redis-backed fixed-window limiter (src/storage/redis/redis_rate_limiter.cpp) and its agreement
 with the in-memory one.

 The server is modelled as a map of counters with an expiry; a key is gone exactly from its expiry
 on.  The script runs on a clock of whole seconds.
 */
module RedisRateLimiter {
  import opened Clock
  import opened RateLimiter
  import opened Text

  /** A counter key; the script sets the expiry in the same step that creates the key. */
  datatype Counter = Counter(count: nat, expireAt: int)

  /** The three numbers the script returns. */
  datatype Reply = Reply(granted: int, current: int, ttl: int)

  predicate Live(keys: map<string, Counter>, key: string, now: int) {
    key in keys && now < keys[key].expireAt
  }

  /**
   INCR, EXPIRE on the first hit, TTL, and the comparison with the limit.  A live key always has an
   expiry ahead, so the script's fallback for a negative TTL is never taken.
   */
  function Script(keys: map<string, Counter>, key: string, limit: nat, window: int, now: int)
    : (map<string, Counter>, Reply)
  {
    var current := if Live(keys, key, now) then keys[key].count + 1 else 1;
    var expireAt := if current == 1 then now + window else keys[key].expireAt;
    var ttl := expireAt - now;
    (keys[key := Counter(current, expireAt)], Reply(if current <= limit then 1 else 0, current, ttl))
  }

  /** How Allow turns the reply into a decision; `now` is the caller's own clock, in ticks. */
  function Decode(reply: Reply, limit: nat, now: int): Decision {
    var count := if reply.current < 0 then 0 else reply.current;
    var ttl := if reply.ttl < 0 then 0 else reply.ttl;
    Decision(reply.granted == 1 && limit > 0,
             if limit == 0 || count >= limit then 0 else limit - count,
             now + ttl * TICKS_PER_SECOND)
  }

  class RedisLimiter {
    const prefix: string
    const scope: string
    var keys: map<string, Counter>

    constructor (prefix: string, scope: string)
      ensures keys == map[] && this.prefix == prefix && this.scope == scope
    {
      this.prefix, this.scope, keys := prefix, scope, map[];
    }

    function ComposeKey(id: string): string {
      prefix + scope + ":" + id
    }

    /** The key as the server gets it: the composed key is passed as a C string, which ends at the first NUL. */
    function WireKey(id: string): string {
      Cut(ComposeKey(id), {'\0'}).0
    }

    /** `seconds` is the whole-second reading both the caller and the server see. */
    method Allow(key: string, limit: nat, window: int, seconds: int, connected: bool)
      returns (d: Decision, error: LimitError)
      modifies this
      ensures error == if key == "" then InvalidKey else if window <= 0 then InvalidPolicy
                       else if !connected then Unavailable else NoError
      ensures error.NoError? ==>
                var (keys', reply) := Script(old(keys), WireKey(key), limit, window, seconds);
                keys == keys' && d == Decode(reply, limit, seconds * TICKS_PER_SECOND)
      ensures !error.NoError? ==> keys == old(keys) && d == Decision(false, 0, seconds * TICKS_PER_SECOND)
    {
      var now := seconds * TICKS_PER_SECOND;
      if key == "" {
        return Decision(false, 0, now), InvalidKey;
      }
      if window <= 0 {
        return Decision(false, 0, now), InvalidPolicy;
      }
      if !connected {
        return Decision(false, 0, now), Unavailable;
      }
      var (keys', reply) := Script(keys, WireKey(key), limit, window, seconds);
      keys := keys';
      var count := if reply.current < 0 then 0 else reply.current;
      var ttl := if reply.ttl < 0 then 0 else reply.ttl;
      var remaining := if limit == 0 || count >= limit then 0 else limit - count;
      d, error := Decision(reply.granted == 1 && limit > 0, remaining, now + ttl * TICKS_PER_SECOND), NoError;
    }
  }

  /** Distinct caller keys use distinct counters. */
  lemma ComposeKeyInjective(l: RedisLimiter, a: string, b: string)
    ensures l.ComposeKey(a) == l.ComposeKey(b) <==> a == b
  {
    var head := l.prefix + l.scope + ":";
    assert l.ComposeKey(a)[|head|..] == a && l.ComposeKey(b)[|head|..] == b;
  }

  /** Where no part holds a NUL, distinct caller keys are distinct on the server, too. */
  lemma WireKeyInjective(l: RedisLimiter, a: string, b: string)
    requires NoneOf(l.ComposeKey(a), {'\0'}) && NoneOf(l.ComposeKey(b), {'\0'})
    ensures l.WireKey(a) == l.WireKey(b) <==> a == b
  {
    WholeKey(l.ComposeKey(a));
    WholeKey(l.ComposeKey(b));
    ComposeKeyInjective(l, a, b);
  }

  lemma {:induction false} WholeKey(key: string)
    requires NoneOf(key, {'\0'})
    ensures Cut(key, {'\0'}).0 == key
  {
    CutUnique(key, "", {'\0'});
    assert key + "" == key;
  }

  /** Keys that differ only behind a NUL share a counter. */
  lemma NulSharesCounter(l: RedisLimiter, key: string, a: string, b: string)
    ensures l.WireKey(key + "\0" + a) == l.WireKey(key + "\0" + b)
  {
    CutAtNul(l.ComposeKey(key), a);
    CutAtNul(l.ComposeKey(key), b);
    assert l.ComposeKey(key + "\0" + a) == l.ComposeKey(key) + ("\0" + a);
    assert l.ComposeKey(key + "\0" + b) == l.ComposeKey(key) + ("\0" + b);
  }

  lemma {:induction false} CutAtNul(head: string, rest: string)
    ensures Cut(head + ("\0" + rest), {'\0'}).0 == Cut(head, {'\0'}).0
  {
    var (a, b) := Cut(head, {'\0'});
    assert head + ("\0" + rest) == a + (b + ("\0" + rest));
    CutUnique(a, b + ("\0" + rest), {'\0'});
  }

  /** The decisions for requests on one key at the given whole seconds. */
  function ServeRedis(key: string, seconds: seq<int>, limit: nat, window: int)
    : (r: (map<string, Counter>, seq<Decision>))
    ensures |r.1| == |seconds|
  {
    if seconds == [] then (map[], []) else
      var n := |seconds| - 1;
      var (keys, ds) := ServeRedis(key, seconds[..n], limit, window);
      var (keys', reply) := Script(keys, key, limit, window, seconds[n]);
      (keys', ds + [Decode(reply, limit, seconds[n] * TICKS_PER_SECOND)])
  }

  function InTicks(seconds: seq<int>): (ticks: seq<int>)
    ensures |ticks| == |seconds|
    ensures forall i :: 0 <= i < |seconds| ==> ticks[i] == seconds[i] * TICKS_PER_SECOND
  {
    if seconds == [] then [] else
      InTicks(seconds[..|seconds| - 1]) + [seconds[|seconds| - 1] * TICKS_PER_SECOND]
  }

  /** Both limiters make the same decisions: allowed, remaining and reset time. */
  ghost predicate Agree(key: string, seconds: seq<int>, limit: nat, window: int) {
    ServeRedis(key, seconds, limit, window).1 == Serve(InTicks(seconds), limit, window * TICKS_PER_SECOND).1
  }

  /**
   The server counts denied requests too, so its counter runs past the bucket's; capped at the
   limit they are equal, and both end at the same moment.
   */
  ghost predicate Matches(keys: map<string, Counter>, key: string, b: Bucket, limit: nat) {
    && key in keys
    && b.count == (if keys[key].count < limit then keys[key].count else limit)
    && b.count > 0
    && b.resetAt == keys[key].expireAt * TICKS_PER_SECOND
  }

  /** With a positive limit the two limiters agree on every request sequence, whatever the clock does. */
  lemma {:induction false} SameDecisions(key: string, seconds: seq<int>, limit: nat, window: int)
    requires limit > 0 && window > 0
    ensures Agree(key, seconds, limit, window)
    ensures seconds != [] ==>
              Matches(ServeRedis(key, seconds, limit, window).0, key,
                      Serve(InTicks(seconds), limit, window * TICKS_PER_SECOND).0, limit)
  {
    if seconds != [] {
      var n := |seconds| - 1;
      SameDecisions(key, seconds[..n], limit, window);
      ServeLast(InTicks(seconds), limit, window * TICKS_PER_SECOND);
      assert InTicks(seconds)[..n] == InTicks(seconds[..n]);
    }
  }

  /** With limit 0 and a window of one second every request opens a new window on both sides. */
  lemma {:induction false} SameDecisionsOneSecond(key: string, seconds: seq<int>)
    requires NonDecreasing(seconds)
    ensures Agree(key, seconds, 0, 1)
    ensures seconds != [] ==>
              var keys := ServeRedis(key, seconds, 0, 1).0;
              && key in keys && keys[key].count > 0
              && keys[key].expireAt == seconds[|seconds| - 1] + 1
    ensures Serve(InTicks(seconds), 0, TICKS_PER_SECOND).0.count == 0
  {
    if seconds != [] {
      var n := |seconds| - 1;
      SameDecisionsOneSecond(key, seconds[..n]);
      ServeLast(InTicks(seconds), 0, TICKS_PER_SECOND);
      assert InTicks(seconds)[..n] == InTicks(seconds[..n]);
    }
  }

  /**
   With limit 0 the in-memory bucket stays empty and restarts its window on every call, while the
   Redis key keeps its first expiry: two requests one second apart already differ in reset time.
   */
  lemma LimitZeroDiffers(key: string, window: int)
    requires window > 1
    ensures NonDecreasing([0, 1]) && !Agree(key, [0, 1], 0, window)
  {
    var span := window * TICKS_PER_SECOND;
    assert [0, 1][..1] == [0];
    assert InTicks([0, 1]) == [0, TICKS_PER_SECOND];
    assert [0, TICKS_PER_SECOND][..1] == [0];
    ServeLast([0], 0, span);
    ServeLast([0, TICKS_PER_SECOND], 0, span);
    assert Serve([0, TICKS_PER_SECOND], 0, span).1[1].resetAt == TICKS_PER_SECOND + span;
    assert ServeRedis(key, [0], 0, window).0[key] == Counter(1, window) by {
      assert [0][..0] == [];
    }
    assert ServeRedis(key, [0, 1], 0, window).1[1].resetAt == span;
  }

  /** Exactly when a policy makes the two limiters interchangeable on a clock that never runs back. */
  lemma AgreeExactly(key: string, limit: nat, window: int)
    requires window > 0
    ensures (forall seconds :: NonDecreasing(seconds) ==> Agree(key, seconds, limit, window))
            <==> limit > 0 || window == 1
  {
    forall seconds | (limit > 0 || window == 1) && NonDecreasing(seconds)
      ensures Agree(key, seconds, limit, window)
    {
      if limit > 0 {
        SameDecisions(key, seconds, limit, window);
      } else {
        SameDecisionsOneSecond(key, seconds);
      }
    }
    if limit == 0 && window > 1 {
      LimitZeroDiffers(key, window);
    }
  }

  // ----- many keys on one server -----

  /** The same requests, with times in ticks. */
  function RequestsInTicks(reqs: seq<Request>): (ticks: seq<Request>)
    ensures |ticks| == |reqs|
    ensures forall i :: 0 <= i < |reqs| ==> ticks[i] == Request(reqs[i].key, reqs[i].now * TICKS_PER_SECOND)
  {
    if reqs == [] then [] else
      var n := |reqs| - 1;
      RequestsInTicks(reqs[..n]) + [Request(reqs[n].key, reqs[n].now * TICKS_PER_SECOND)]
  }

  predicate Serves(key: string, p: Policy) {
    key != "" && p.window > 0
  }

  /** Serving requests of many keys, at whole seconds, through the keys of one server. */
  function ServeAllRedis(l: RedisLimiter, reqs: seq<Request>, policy: string -> Policy): (r: (map<string, Counter>, seq<Decision>))
    ensures |r.1| == |reqs|
  {
    if reqs == [] then (map[], []) else
      var n := |reqs| - 1;
      var (keys, ds) := ServeAllRedis(l, reqs[..n], policy);
      var Request(key, now) := reqs[n];
      var p := policy(key);
      if !Serves(key, p) then (keys, ds + [Decision(false, 0, now * TICKS_PER_SECOND)]) else
        var (keys', reply) := Script(keys, l.WireKey(key), p.limit, p.window, now);
        (keys', ds + [Decode(reply, p.limit, now * TICKS_PER_SECOND)])
  }

  predicate SameKey(a: map<string, Counter>, b: map<string, Counter>, key: string) {
    (key in a <==> key in b) && (key in a ==> a[key] == b[key])
  }

  lemma ScriptSame(a: map<string, Counter>, b: map<string, Counter>, key: string, limit: nat, window: int, now: int)
    requires SameKey(a, b, key)
    ensures Script(a, key, limit, window, now).1 == Script(b, key, limit, window, now).1
    ensures SameKey(Script(a, key, limit, window, now).0, Script(b, key, limit, window, now).0, key)
  {
  }

  /** No other key that is served among the requests has the same counter. */
  ghost predicate AloneIn(l: RedisLimiter, reqs: seq<Request>, policy: string -> Policy, key: string) {
    forall i :: 0 <= i < |reqs| && Serves(reqs[i].key, policy(reqs[i].key)) && l.WireKey(reqs[i].key) == l.WireKey(key) ==> reqs[i].key == key
  }

  /** A key that shares its counter with no other gets what it would get if it had the server to itself. */
  lemma {:induction false} RedisKeysAreIndependent(l: RedisLimiter, reqs: seq<Request>, policy: string -> Policy, key: string)
    requires Serves(key, policy(key)) && AloneIn(l, reqs, policy, key)
    ensures var (keys, ds) := ServeAllRedis(l, reqs, policy);
            var p := policy(key);
            var (own, decisions) := ServeRedis(l.WireKey(key), TimesOf(reqs, key), p.limit, p.window);
            SameKey(keys, own, l.WireKey(key)) && DecisionsOf(reqs, ds, key) == decisions
  {
    if reqs != [] {
      var n := |reqs| - 1;
      var p := policy(key);
      RedisKeysAreIndependent(l, reqs[..n], policy, key);
      var (keys, ds) := ServeAllRedis(l, reqs[..n], policy);
      assert ServeAllRedis(l, reqs, policy).1[..n] == ds;
      if reqs[n].key == key {
        var times := TimesOf(reqs, key);
        assert times[..|times| - 1] == TimesOf(reqs[..n], key);
        ScriptSame(keys, ServeRedis(l.WireKey(key), TimesOf(reqs[..n], key), p.limit, p.window).0, l.WireKey(key),
                   p.limit, p.window, reqs[n].now);
      } else {
        assert TimesOf(reqs, key) == TimesOf(reqs[..n], key);
        assert DecisionsOf(reqs, ServeAllRedis(l, reqs, policy).1, key) == DecisionsOf(reqs[..n], ds, key);
      }
    }
  }

  lemma {:induction false} TimesInTicks(reqs: seq<Request>, key: string)
    ensures TimesOf(RequestsInTicks(reqs), key) == InTicks(TimesOf(reqs, key))
  {
    if reqs != [] {
      var n := |reqs| - 1;
      TimesInTicks(reqs[..n], key);
      assert RequestsInTicks(reqs)[..n] == RequestsInTicks(reqs[..n]);
      var times := TimesOf(reqs[..n], key);
      assert (times + [reqs[n].now])[..|times|] == times;
      assert times + [] == times;
    }
  }

  lemma {:induction false} DecisionsInTicks(reqs: seq<Request>, ds: seq<Decision>, key: string)
    requires |ds| == |reqs|
    ensures DecisionsOf(RequestsInTicks(reqs), ds, key) == DecisionsOf(reqs, ds, key)
  {
    if reqs != [] {
      var n := |reqs| - 1;
      DecisionsInTicks(reqs[..n], ds[..n], key);
      assert RequestsInTicks(reqs)[..n] == RequestsInTicks(reqs[..n]);
    }
  }

  /** Requests whose last decision agrees for its own key agree as a whole, when the earlier ones do. */
  lemma {:induction false} LastOfKey(reqs: seq<Request>, a: seq<Decision>, b: seq<Decision>)
    requires reqs != [] && |a| == |b| == |reqs|
    requires DecisionsOf(reqs, a, reqs[|reqs| - 1].key) == DecisionsOf(reqs, b, reqs[|reqs| - 1].key)
    ensures a[|reqs| - 1] == b[|reqs| - 1]
  {
    var n := |reqs| - 1;
    var key := reqs[n].key;
    var x, y := DecisionsOf(reqs, a, key), DecisionsOf(reqs, b, key);
    assert x[|x| - 1] == a[n] && y[|y| - 1] == b[n];
  }

  /** Both servers turn a request without a key or window away in the same way. */
  lemma {:induction false} RefusedAlike(l: RedisLimiter, reqs: seq<Request>, policy: string -> Policy)
    requires reqs != [] && !Serves(reqs[|reqs| - 1].key, policy(reqs[|reqs| - 1].key))
    ensures ServeAllRedis(l, reqs, policy).1[|reqs| - 1] == ServeAll(RequestsInTicks(reqs), policy).1[|reqs| - 1]
  {
  }

  lemma {:induction false} PrefixDecisions(l: RedisLimiter, reqs: seq<Request>, policy: string -> Policy)
    requires reqs != []
    ensures var n := |reqs| - 1;
            && ServeAllRedis(l, reqs, policy).1[..n] == ServeAllRedis(l, reqs[..n], policy).1
            && ServeAll(RequestsInTicks(reqs), policy).1[..n] == ServeAll(RequestsInTicks(reqs[..n]), policy).1
  {
    var n := |reqs| - 1;
    assert RequestsInTicks(reqs)[..n] == RequestsInTicks(reqs[..n]);
  }

  /** The two limiters, each serving all keys at once, make the same decisions. */
  ghost predicate AgreeOnAll(l: RedisLimiter, reqs: seq<Request>, policy: string -> Policy) {
    ServeAllRedis(l, reqs, policy).1 == ServeAll(RequestsInTicks(reqs), policy).1
  }

  ghost predicate InOrder(reqs: seq<Request>) {
    forall i, j :: 0 <= i < j < |reqs| ==> reqs[i].now <= reqs[j].now
  }

  lemma {:induction false} TimesInOrder(reqs: seq<Request>, key: string)
    requires InOrder(reqs)
    ensures NonDecreasing(TimesOf(reqs, key))
    ensures forall t :: t in TimesOf(reqs, key) ==> reqs != [] && t <= reqs[|reqs| - 1].now
  {
    if reqs != [] {
      TimesInOrder(reqs[..|reqs| - 1], key);
      var before := TimesOf(reqs[..|reqs| - 1], key);
      assert forall i :: 0 <= i < |before| ==> before[i] in before;
    }
  }

  /** What a single key's requests get on both servers. */
  lemma {:induction false} OneKeyOfMany(l: RedisLimiter, reqs: seq<Request>, policy: string -> Policy, key: string)
    requires Serves(key, policy(key)) && AloneIn(l, reqs, policy, key)
    ensures DecisionsOf(reqs, ServeAllRedis(l, reqs, policy).1, key) == DecisionsOf(reqs, ServeAll(RequestsInTicks(reqs), policy).1, key)
            <==> Agree(l.WireKey(key), TimesOf(reqs, key), policy(key).limit, policy(key).window)
  {
    RedisKeysAreIndependent(l, reqs, policy, key);
    KeysAreIndependent(RequestsInTicks(reqs), policy, key);
    DecisionsInTicks(reqs, ServeAll(RequestsInTicks(reqs), policy).1, key);
    TimesInTicks(reqs, key);
  }

  predicate Interchangeable(p: Policy) {
    p.limit > 0 || p.window == 1
  }

  ghost predicate AllInterchangeable(policy: string -> Policy) {
    forall key :: Serves(key, policy(key)) ==> Interchangeable(policy(key))
  }

  /** Two keys that are served and share a counter. */
  ghost predicate Share(l: RedisLimiter, policy: string -> Policy, a: string, b: string) {
    a != b && l.WireKey(a) == l.WireKey(b) && Serves(a, policy(a)) && Serves(b, policy(b))
  }

  /** Keys that share a counter have limit 0, so that the count does not matter. */
  ghost predicate SharedAreZero(l: RedisLimiter, policy: string -> Policy) {
    forall a, b :: Share(l, policy, a, b) ==> policy(a).limit == 0 && policy(b).limit == 0
  }

  // ----- counters of limit 0 and one second -----

  /** Every key served on a counter has limit 0 and a window of one second. */
  ghost predicate ZeroWire(l: RedisLimiter, policy: string -> Policy, wire: string) {
    forall key :: Serves(key, policy(key)) && l.WireKey(key) == wire ==> policy(key).limit == 0 && policy(key).window == 1
  }

  lemma {:induction false} ZeroWireExpiry(l: RedisLimiter, reqs: seq<Request>, policy: string -> Policy, wire: string)
    requires InOrder(reqs) && ZeroWire(l, policy, wire)
    ensures var keys := ServeAllRedis(l, reqs, policy).0;
            wire in keys ==> reqs != [] && keys[wire].expireAt <= reqs[|reqs| - 1].now + 1 && keys[wire].count > 0
  {
    if reqs != [] {
      ZeroWireExpiry(l, reqs[..|reqs| - 1], policy, wire);
    }
  }

  lemma {:induction false} ZeroWireDecision(l: RedisLimiter, reqs: seq<Request>, policy: string -> Policy)
    requires reqs != [] && InOrder(reqs)
    requires var key := reqs[|reqs| - 1].key; Serves(key, policy(key)) && ZeroWire(l, policy, l.WireKey(key))
    ensures ServeAllRedis(l, reqs, policy).1[|reqs| - 1] == Decision(false, 0, (reqs[|reqs| - 1].now + 1) * TICKS_PER_SECOND)
  {
    ZeroWireExpiry(l, reqs[..|reqs| - 1], policy, l.WireKey(reqs[|reqs| - 1].key));
  }

  lemma {:induction false} ZeroCount(times: seq<int>, span: int)
    ensures Serve(times, 0, span).0.count == 0
  {
    if times != [] {
      ZeroCount(times[..|times| - 1], span);
    }
  }

  lemma {:induction false} ZeroBucketDecision(reqs: seq<Request>, policy: string -> Policy, key: string)
    requires reqs != [] && reqs[|reqs| - 1].key == key && Serves(key, policy(key))
    requires policy(key).limit == 0 && policy(key).window == 1
    ensures ServeAll(reqs, policy).1[|reqs| - 1] == Decision(false, 0, reqs[|reqs| - 1].now + TICKS_PER_SECOND)
  {
    var n := |reqs| - 1;
    KeysAreIndependent(reqs[..n], policy, key);
    ZeroCount(TimesOf(reqs[..n], key), TICKS_PER_SECOND);
  }

  // ----- agreement -----

  lemma {:induction false} SharedLastAgrees(l: RedisLimiter, reqs: seq<Request>, policy: string -> Policy, other: string)
    requires reqs != [] && InOrder(reqs) && AllInterchangeable(policy) && SharedAreZero(l, policy)
    requires Share(l, policy, reqs[|reqs| - 1].key, other)
    ensures ServeAllRedis(l, reqs, policy).1[|reqs| - 1] == ServeAll(RequestsInTicks(reqs), policy).1[|reqs| - 1]
  {
    var key := reqs[|reqs| - 1].key;
    SharedWireIsZero(l, policy, key, other);
    ZeroWireDecision(l, reqs, policy);
    ZeroBucketDecision(RequestsInTicks(reqs), policy, key);
  }

  lemma SharedWireIsZero(l: RedisLimiter, policy: string -> Policy, a: string, b: string)
    requires AllInterchangeable(policy) && SharedAreZero(l, policy) && Share(l, policy, a, b)
    ensures ZeroWire(l, policy, l.WireKey(a))
  {
    forall key | Serves(key, policy(key)) && l.WireKey(key) == l.WireKey(a)
      ensures policy(key).limit == 0 && policy(key).window == 1
    {
      assert key == a || Share(l, policy, key, a);
      assert Interchangeable(policy(key));
    }
  }

  lemma {:induction false} LastAgrees(l: RedisLimiter, reqs: seq<Request>, policy: string -> Policy)
    requires reqs != [] && InOrder(reqs) && AllInterchangeable(policy) && SharedAreZero(l, policy)
    ensures ServeAllRedis(l, reqs, policy).1[|reqs| - 1] == ServeAll(RequestsInTicks(reqs), policy).1[|reqs| - 1]
  {
    var key := reqs[|reqs| - 1].key;
    if !Serves(key, policy(key)) {
      RefusedAlike(l, reqs, policy);
    } else if other :| Share(l, policy, key, other) {
      SharedLastAgrees(l, reqs, policy, other);
    } else {
      assert AloneIn(l, reqs, policy, key) by {
        forall i | 0 <= i < |reqs| && Serves(reqs[i].key, policy(reqs[i].key)) && l.WireKey(reqs[i].key) == l.WireKey(key)
          ensures reqs[i].key == key
        {
          assert !Share(l, policy, key, reqs[i].key);
        }
      }
      AloneLastAgrees(l, reqs, policy);
    }
  }

  lemma {:induction false} AloneLastAgrees(l: RedisLimiter, reqs: seq<Request>, policy: string -> Policy)
    requires reqs != [] && InOrder(reqs) && AllInterchangeable(policy)
    requires var key := reqs[|reqs| - 1].key; Serves(key, policy(key)) && AloneIn(l, reqs, policy, key)
    ensures ServeAllRedis(l, reqs, policy).1[|reqs| - 1] == ServeAll(RequestsInTicks(reqs), policy).1[|reqs| - 1]
  {
    var key := reqs[|reqs| - 1].key;
    TimesInOrder(reqs, key);
    AgreeExactly(l.WireKey(key), policy(key).limit, policy(key).window);
    OneKeyOfMany(l, reqs, policy, key);
    LastOfKey(reqs, ServeAllRedis(l, reqs, policy).1, ServeAll(RequestsInTicks(reqs), policy).1);
  }

  lemma {:induction false} ManyKeysAgree(l: RedisLimiter, reqs: seq<Request>, policy: string -> Policy)
    requires InOrder(reqs) && AllInterchangeable(policy) && SharedAreZero(l, policy)
    ensures AgreeOnAll(l, reqs, policy)
  {
    if reqs != [] {
      var n := |reqs| - 1;
      var a, b := ServeAllRedis(l, reqs, policy).1, ServeAll(RequestsInTicks(reqs), policy).1;
      ManyKeysAgree(l, reqs[..n], policy);
      PrefixDecisions(l, reqs, policy);
      LastAgrees(l, reqs, policy);
      assert a == a[..n] + [a[n]] && b == b[..n] + [b[n]];
    }
  }

  lemma TwoRequestsDiffer(l: RedisLimiter, policy: string -> Policy, key: string, reqs: seq<Request>)
    requires Serves(key, policy(key)) && !Interchangeable(policy(key)) && reqs == [Request(key, 0), Request(key, 1)]
    ensures InOrder(reqs) && !AgreeOnAll(l, reqs, policy)
  {
    TwoTimes(key, reqs);
    LimitZeroDiffers(l.WireKey(key), policy(key).window);
    OneKeyDiffers(l, policy, key, reqs);
  }

  lemma {:induction false} OneKeyDiffers(l: RedisLimiter, policy: string -> Policy, key: string, reqs: seq<Request>)
    requires Serves(key, policy(key)) && AloneIn(l, reqs, policy, key)
    requires !Agree(l.WireKey(key), TimesOf(reqs, key), policy(key).limit, policy(key).window)
    ensures !AgreeOnAll(l, reqs, policy)
  {
    OneKeyOfMany(l, reqs, policy, key);
  }

  lemma {:induction false} TwoTimes(key: string, reqs: seq<Request>)
    requires reqs == [Request(key, 0), Request(key, 1)]
    ensures TimesOf(reqs, key) == [0, 1]
  {
    assert reqs[..1] == [Request(key, 0)] && reqs[..1][..0] == [];
    assert TimesOf(reqs[..1], key) == [0];
  }

  /** Two keys on one counter: the second request is counted as the second on the server, as the first in memory. */
  lemma SharedCounterDiffers(l: RedisLimiter, policy: string -> Policy, a: string, b: string, reqs: seq<Request>)
    requires Share(l, policy, a, b) && policy(b).limit > 0 && reqs == [Request(a, 0), Request(b, 0)]
    ensures InOrder(reqs) && !AgreeOnAll(l, reqs, policy)
  {
    SecondOnServer(l, policy, a, b, reqs);
    FirstInMemory(policy, a, b, RequestsInTicks(reqs));
  }

  lemma {:induction false} SecondOnServer(l: RedisLimiter, policy: string -> Policy, a: string, b: string, reqs: seq<Request>)
    requires Share(l, policy, a, b) && policy(b).limit > 0 && reqs == [Request(a, 0), Request(b, 0)]
    ensures var d := ServeAllRedis(l, reqs, policy).1[1];
            d.allowed == (policy(b).limit >= 2) && d.remaining == (if policy(b).limit >= 2 then policy(b).limit - 2 else 0)
  {
    assert reqs[..1] == [Request(a, 0)] && reqs[..1][..0] == [];
    assert ServeAllRedis(l, reqs[..1], policy).0 == map[l.WireKey(a) := Counter(1, policy(a).window)];
  }

  lemma {:induction false} FirstInMemory(policy: string -> Policy, a: string, b: string, reqs: seq<Request>)
    requires a != b && Serves(a, policy(a)) && Serves(b, policy(b)) && policy(b).limit > 0 && reqs == [Request(a, 0), Request(b, 0)]
    ensures var d := ServeAll(reqs, policy).1[1]; d.allowed && d.remaining == policy(b).limit - 1
  {
    var before := reqs[..1];
    assert before == [Request(a, 0)] && before[..0] == [];
    assert ServeAll(before[..0], policy) == (map[], []);
    assert ServeAll(before, policy).0.Keys == {a};
    assert Lookup(ServeAll(before, policy).0, b) == FRESH;
  }

  /**
   Serving any number of keys on a clock that never runs back, the two limiters are interchangeable
   exactly when the policy of every key that is served has a positive limit or a one-second window,
   and keys that share a counter on the server all have limit 0.
   */
  lemma ManyKeysAgreeExactly(l: RedisLimiter, policy: string -> Policy)
    ensures (forall reqs :: InOrder(reqs) ==> AgreeOnAll(l, reqs, policy))
            <==> AllInterchangeable(policy) && SharedAreZero(l, policy)
  {
    if AllInterchangeable(policy) && SharedAreZero(l, policy) {
      forall reqs | InOrder(reqs)
        ensures AgreeOnAll(l, reqs, policy)
      {
        ManyKeysAgree(l, reqs, policy);
      }
    } else if !AllInterchangeable(policy) {
      var key :| Serves(key, policy(key)) && !Interchangeable(policy(key));
      TwoRequestsDiffer(l, policy, key, [Request(key, 0), Request(key, 1)]);
    } else {
      var a, b :| Share(l, policy, a, b) && !(policy(a).limit == 0 && policy(b).limit == 0);
      if policy(b).limit > 0 {
        SharedCounterDiffers(l, policy, a, b, [Request(a, 0), Request(b, 0)]);
      } else {
        SharedCounterDiffers(l, policy, b, a, [Request(b, 0), Request(a, 0)]);
      }
    }
  }
}
