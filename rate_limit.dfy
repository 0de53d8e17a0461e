/**
  The fixed-window rate limiter of lib/rate-limit.ts: each call increments a
  per-token counter in Redis, gives the counter an expiry of `window` seconds
  when the increment created it, reads the remaining time back, and admits the
  request when the post-increment count is within `limit`. When any Redis
  command fails the limiter fails open and admits the request.

  The wall clock (`Date.now()`) is the parameter `now`, in milliseconds, and
  which Redis commands fail is the parameter `faults`.
*/
module RateLimit {
  import opened Wrappers
  import opened RedisStore

  /** The options one call site passes (`window` in seconds). */
  datatype RateLimitConfig = RateLimitConfig(uniqueToken: string, limit: int, window: int)

  /** The admission decision: allowed, quota left, and the epoch-millisecond
      time at which the window ends. */
  datatype RateLimitResult = RateLimitResult(success: bool, remaining: int, reset: int)

  /** Which of the limiter's Redis commands fail during one call. */
  datatype Faults = Faults(incr: bool, expire: bool, ttl: bool)

  const Healthy := Faults(false, false, false)

  /** The store after a call, and what the call returned. */
  datatype Outcome = Outcome(entries: map<string, Entry>, result: RateLimitResult)

  const KeyPrefix: string := "rate_limit:"

  function Max(a: int, b: int): (r: int) { if a < b then b else a }

  function Min(a: int, b: int): (r: int) { if a < b then a else b }

  /** The Redis key that holds a token's counter. */
  function KeyFor(uniqueToken: string): (key: string)
    ensures KeyPrefix <= key && key[|KeyPrefix|..] == uniqueToken
  {
    KeyPrefix + uniqueToken
  }

  /** Distinct tokens never share a counter. */
  lemma KeyForInjective(a: string, b: string)
    ensures KeyFor(a) == KeyFor(b) <==> a == b
  {
    if KeyFor(a) == KeyFor(b) {
      assert a == KeyFor(a)[|KeyPrefix|..];
    }
  }

  /** The result returned when a Redis command throws: the request is
      admitted with the whole limit left, and the window is reported to end
      `window` seconds from now. */
  function FailOpen(config: RateLimitConfig, now: int): (r: RateLimitResult)
    ensures r.success && r.remaining == config.limit
    ensures r.reset - now == config.window * 1000
  {
    RateLimitResult(true, config.limit, now + config.window * 1000)
  }

  /** The result computed from the post-increment count and the TTL read back:
      allowed exactly while the count is within the limit, the quota left
      never negative, and the reset time `ttl` seconds after `now`. */
  function Admission(count: int, limit: int, ttl: int, now: int): (r: RateLimitResult)
    ensures r.success <==> count <= limit
    ensures r.remaining >= 0 && r.remaining >= limit - count
    ensures r.remaining == 0 || r.remaining == limit - count
    ensures r.reset - now == ttl * 1000
  {
    RateLimitResult(count <= limit, Max(0, limit - count), now + ttl * 1000)
  }

  /** What one call of rateLimit does to the keyspace `m` and returns. Only the
      token's own key is ever touched. */
  function Check(m: map<string, Entry>, config: RateLimitConfig, now: int, faults: Faults): (o: Outcome)
    ensures SameExcept(m, o.entries, KeyFor(config.uniqueToken))
    ensures faults.incr ==> o.entries == m
  {
    var key := KeyFor(config.uniqueToken);
    if faults.incr then Outcome(m, FailOpen(config, now))
    else
      var usage := CountAt(m, key, now) + 1;
      var m1 := Incremented(m, key, now);
      if usage == 1 && faults.expire then Outcome(m1, FailOpen(config, now))
      else
        var m2 := if usage == 1 then AfterExpire(m1, key, config.window, now) else m1;
        if faults.ttl then Outcome(m2, FailOpen(config, now))
        else Outcome(m2, Admission(usage, config.limit, TimeToLive(m2, key, now), now))
  }

  /** rateLimit: one admission check against the shared store `redis`. */
  method RateLimit(redis: Store, config: RateLimitConfig, now: int, faults: Faults) returns (result: RateLimitResult)
    modifies redis
    ensures result == Check(old(redis.entries), config, now, faults).result
    ensures redis.entries == Check(old(redis.entries), config, now, faults).entries
  {
    var key := KeyFor(config.uniqueToken);
    var currentUsage := redis.Incr(key, now, faults.incr);
    if currentUsage.Failed? {
      return FailOpen(config, now);
    }
    if currentUsage.value == 1 {
      var expired := redis.Expire(key, config.window, now, faults.expire);
      if expired.Failed? {
        return FailOpen(config, now);
      }
    }
    var ttl := redis.Ttl(key, now, faults.ttl);
    if ttl.Failed? {
      return FailOpen(config, now);
    }
    result := Admission(currentUsage.value, config.limit, ttl.value, now);
  }

  // ---------------------------------------------------------------------------
  // Properties of one call

  /** Every call whose INCR succeeds consumes exactly one unit of quota, whether
      it is then admitted or denied, and whether or not a later command fails;
      a call whose INCR fails consumes nothing. */
  lemma CallConsumesOne(m: map<string, Entry>, config: RateLimitConfig, now: int, faults: Faults)
    requires config.window > 0
    ensures var key := KeyFor(config.uniqueToken);
            var o := Check(m, config, now, faults);
            CountAt(o.entries, key, now) == CountAt(m, key, now) + (if faults.incr then 0 else 1)
  {
  }

  /** The expiry is set when, and only when, the call created the counter: a
      later call in the same window neither extends nor resets it. */
  lemma ExpirySetOnFirstCallOnly(m: map<string, Entry>, config: RateLimitConfig, now: int, faults: Faults)
    requires !faults.incr
    ensures var key := KeyFor(config.uniqueToken);
            var o := Check(m, config, now, faults);
            (CountAt(m, key, now) > 0 ==> o.entries[key] == Entry(m[key].count + 1, m[key].expiresAt)) &&
            (CountAt(m, key, now) == 0 && !faults.expire && config.window > 0 ==>
               o.entries[key] == Entry(1, Some(now + config.window * 1000)))
  {
  }

  /** On a healthy store the decision follows the post-increment count:
      admitted iff it is within the limit, and the quota left is
      max(0, limit - count), never negative. */
  lemma HealthyDecision(m: map<string, Entry>, config: RateLimitConfig, now: int)
    ensures var count := CountAt(m, KeyFor(config.uniqueToken), now) + 1;
            var r := Check(m, config, now, Healthy).result;
            (r.success <==> count <= config.limit) &&
            r.remaining == Max(0, config.limit - count) && r.remaining >= 0
  {
  }

  /** A call reads only the token's own key: two keyspaces that show the same
      entry (or absence) under that key give the same result and leave the
      same visible entry under it. */
  lemma CheckReadsOnlyKey(m: map<string, Entry>, m': map<string, Entry>, config: RateLimitConfig, now: int, faults: Faults)
    requires var key := KeyFor(config.uniqueToken);
             Get(m, key, now) == Get(m', key, now)
    ensures var key := KeyFor(config.uniqueToken);
            var o, o' := Check(m, config, now, faults), Check(m', config, now, faults);
            o.result == o'.result && Get(o.entries, key, now) == Get(o'.entries, key, now)
  {
  }

  /** Whatever the stored count, a failed command that the call reaches makes
      it return the fail-open result. */
  lemma FaultFailsOpen(m: map<string, Entry>, config: RateLimitConfig, now: int, faults: Faults)
    requires faults.incr || faults.ttl || (faults.expire && CountAt(m, KeyFor(config.uniqueToken), now) == 0)
    ensures Check(m, config, now, faults).result == FailOpen(config, now)
  {
  }

  /** The fail-open result is returned exactly when a Redis command the call
      reaches fails: it admits the request with the full quota whatever the
      stored count, and a healthy call can never produce it (counters only
      ever hold what INCR put there, so they are not negative). */
  lemma FailOpenExactlyOnFault(m: map<string, Entry>, config: RateLimitConfig, now: int, faults: Faults)
    requires CountAt(m, KeyFor(config.uniqueToken), now) >= 0
    ensures var key := KeyFor(config.uniqueToken);
            var r := Check(m, config, now, faults).result;
            r == FailOpen(config, now) <==> faults.incr || faults.ttl || (faults.expire && CountAt(m, key, now) == 0)
  {
    var key := KeyFor(config.uniqueToken);
    var r := Check(m, config, now, faults).result;
    if !(faults.incr || faults.ttl || (faults.expire && CountAt(m, key, now) == 0)) {
      var count := CountAt(m, key, now) + 1;
      assert r.success <==> count <= config.limit;
      assert r.success ==> r.remaining < config.limit;
    }
  }

  /** The reported reset time lies within the window: on the call that opens
      the window it is exactly `window` seconds ahead, and on later calls it is
      never before `now` nor more than `window` seconds ahead, provided the
      counter's expiry was set by this window. */
  lemma ResetWithinWindow(m: map<string, Entry>, config: RateLimitConfig, now: int)
    requires config.window > 0
    requires var key := KeyFor(config.uniqueToken);
             Get(m, key, now).Some? ==>
               m[key].expiresAt.Some? && m[key].expiresAt.value <= now + config.window * 1000
    ensures var key := KeyFor(config.uniqueToken);
            var r := Check(m, config, now, Healthy).result;
            now <= r.reset <= now + config.window * 1000 &&
            (CountAt(m, key, now) == 0 ==> r.reset == now + config.window * 1000)
  {
    var key := KeyFor(config.uniqueToken);
    var o := Check(m, config, now, Healthy);
    var t := TimeToLive(o.entries, key, now);
    assert 1000 * t - 500 <= o.entries[key].expiresAt.value - now < 1000 * t + 500;
  }

  /** A counter whose window has passed behaves as if it had never existed: the
      call opens a new window at count 1 with the full quota less one. */
  lemma ExpiredWindowRestarts(m: map<string, Entry>, config: RateLimitConfig, now: int)
    requires config.window > 0
    requires var key := KeyFor(config.uniqueToken);
             key in m && m[key].expiresAt.Some? && m[key].expiresAt.value < now
    ensures var key := KeyFor(config.uniqueToken);
            var o := Check(m, config, now, Healthy);
            o.entries[key] == Entry(1, Some(now + config.window * 1000)) &&
            o.result == RateLimitResult(1 <= config.limit, Max(0, config.limit - 1), now + config.window * 1000)
  {
  }

  // ---------------------------------------------------------------------------
  // Successive calls

  /** The outcome of successive healthy calls at the given times. */
  datatype Trace = Trace(entries: map<string, Entry>, results: seq<RateLimitResult>)

  function Replay(m: map<string, Entry>, config: RateLimitConfig, times: seq<int>): (tr: Trace)
    ensures |tr.results| == |times|
    decreases |times|
  {
    if times == [] then Trace(m, [])
    else
      var first := Check(m, config, times[0], Healthy);
      var rest := Replay(first.entries, config, times[1..]);
      Trace(rest.entries, [first.result] + rest.results)
  }

  /** Inside an open window (a counter at `c` expiring at `e`), successive
      healthy calls see the counts c+1, c+2, ...; each is admitted iff its count
      is within the limit, and each reports the window's end to within half a
      second. */
  lemma {:induction false} OpenWindowCounts(m: map<string, Entry>, config: RateLimitConfig, times: seq<int>, c: int, e: int)
    requires c >= 1
    requires var key := KeyFor(config.uniqueToken);
             key in m && m[key] == Entry(c, Some(e))
    requires forall i :: 0 <= i < |times| ==> times[i] <= e
    ensures var key := KeyFor(config.uniqueToken);
            var tr := Replay(m, config, times);
            key in tr.entries && tr.entries[key] == Entry(c + |times|, Some(e))
    ensures var tr := Replay(m, config, times);
            forall j :: 0 <= j < |times| ==>
              && (tr.results[j].success <==> c + j + 1 <= config.limit)
              && tr.results[j].remaining == Max(0, config.limit - (c + j + 1))
              && tr.results[j].reset - 500 <= e < tr.results[j].reset + 500
              && times[j] <= tr.results[j].reset
              && (tr.results[j].reset - times[j]) % 1000 == 0
  {
    if times != [] {
      var key := KeyFor(config.uniqueToken);
      var first := Check(m, config, times[0], Healthy);
      assert first.entries[key] == Entry(c + 1, Some(e));
      var t := TimeToLive(first.entries, key, times[0]);
      assert 1000 * t - 500 <= e - times[0] < 1000 * t + 500;
      OpenWindowCounts(first.entries, config, times[1..], c + 1, e);
      var tr := Replay(m, config, times);
      var rest := Replay(first.entries, config, times[1..]);
      assert tr.results == [first.result] + rest.results;
      forall j | 1 <= j < |times|
        ensures tr.results[j] == rest.results[j - 1] && times[j] == times[1..][j - 1]
      {
      }
    }
  }

  /** Fixed-window quota: starting from a fresh key, with `limit` = N, calls
      1..N within one window are admitted with N-1, N-2, ..., 0 left, every
      later call in the window is denied with 0 left (with N = 0 the very first
      call is denied), and every call reports a reset time no earlier than its
      own time and at most `window` seconds after it. */
  lemma {:induction false} WindowQuota(m: map<string, Entry>, config: RateLimitConfig, times: seq<int>)
    requires config.window > 0 && |times| > 0
    requires Get(m, KeyFor(config.uniqueToken), times[0]).None?
    requires forall i :: 0 <= i < |times| ==> times[0] <= times[i] <= times[0] + config.window * 1000
    ensures var tr := Replay(m, config, times);
            forall j :: 0 <= j < |times| ==>
              && (tr.results[j].success <==> j < config.limit)
              && tr.results[j].remaining == Max(0, config.limit - (j + 1))
              && times[j] <= tr.results[j].reset <= times[j] + config.window * 1000
  {
    var key := KeyFor(config.uniqueToken);
    var e := times[0] + config.window * 1000;
    var first := Check(m, config, times[0], Healthy);
    assert first.entries[key] == Entry(1, Some(e));
    var rest := Replay(first.entries, config, times[1..]);
    OpenWindowCounts(first.entries, config, times[1..], 1, e);
    var tr := Replay(m, config, times);
    assert tr.results == [first.result] + rest.results;
    forall j | 0 <= j < |times|
      ensures (tr.results[j].success <==> j < config.limit)
      ensures tr.results[j].remaining == Max(0, config.limit - (j + 1))
      ensures times[j] <= tr.results[j].reset <= times[j] + config.window * 1000
    {
      if j > 0 {
        assert tr.results[j] == rest.results[j - 1] && times[j] == times[1..][j - 1];
        assert tr.results[j].reset - 500 <= e < tr.results[j].reset + 500;
        var k := (tr.results[j].reset - times[j]) / 1000;
        assert tr.results[j].reset - times[j] == 1000 * k;
      }
    }
  }

  // ---------------------------------------------------------------------------
  // A counter left without an expiry

  /** As written, a failed EXPIRE after the INCR that created the counter leaves
      the counter without an expiry (the call itself fails open). */
  lemma ExpireFaultStrandsCounter(m: map<string, Entry>, config: RateLimitConfig, now: int)
    requires Get(m, KeyFor(config.uniqueToken), now).None?
    ensures var key := KeyFor(config.uniqueToken);
            var o := Check(m, config, now, Faults(false, true, false));
            key in o.entries && o.entries[key] == Entry(1, None) && o.result == FailOpen(config, now)
  {
  }

  /** As written, a counter without an expiry never expires: every later healthy
      call, however much later, sees the next count, no expiry is ever set, and
      the reset time reported is one second in the past. Once the count passes
      the limit the token is denied for good. */
  lemma {:induction false} StrandedCounterNeverResets(m: map<string, Entry>, config: RateLimitConfig, times: seq<int>, c: int)
    requires c >= 1
    requires var key := KeyFor(config.uniqueToken);
             key in m && m[key] == Entry(c, None)
    ensures var key := KeyFor(config.uniqueToken);
            var tr := Replay(m, config, times);
            key in tr.entries && tr.entries[key] == Entry(c + |times|, None)
    ensures var tr := Replay(m, config, times);
            forall j :: 0 <= j < |times| ==>
              (tr.results[j].success <==> c + j + 1 <= config.limit) && tr.results[j].reset == times[j] - 1000
  {
    if times != [] {
      var first := Check(m, config, times[0], Healthy);
      StrandedCounterNeverResets(first.entries, config, times[1..], c + 1);
      var tr := Replay(m, config, times);
      var rest := Replay(first.entries, config, times[1..]);
      assert tr.results == [first.result] + rest.results;
      forall j | 1 <= j < |times|
        ensures tr.results[j] == rest.results[j - 1] && times[j] == times[1..][j - 1]
      {
      }
    }
  }

  /** A concrete instance: with a limit of 1 and a 60-second window, one failed
      EXPIRE on the first call makes a request a day later be denied, although
      its window ended long before. */
  lemma StrandedCounterExample()
    ensures var config := RateLimitConfig("user-1", 1, 60);
            var o := Check(map[], config, 0, Faults(false, true, false));
            var later := Replay(o.entries, config, [86_400_000]);
            o.result.success && !later.results[0].success
  {
    var config := RateLimitConfig("user-1", 1, 60);
    var o := Check(map[], config, 0, Faults(false, true, false));
    ExpireFaultStrandsCounter(map[], config, 0);
    StrandedCounterNeverResets(o.entries, config, [86_400_000], 1);
  }

  /** The corrected limiter: INCR and EXPIRE key window NX travel in one
      MULTI/EXEC transaction, so the counter is never left created without an
      expiry; NX sets the expiry whenever the counter has none and leaves a
      running window alone. The transaction fails when either of its commands
      cannot be sent, and then nothing is applied. */
  function CheckRepaired(m: map<string, Entry>, config: RateLimitConfig, now: int, faults: Faults): (o: Outcome)
    ensures SameExcept(m, o.entries, KeyFor(config.uniqueToken))
    ensures faults.incr || faults.expire ==> o.entries == m && o.result == FailOpen(config, now)
  {
    var key := KeyFor(config.uniqueToken);
    if faults.incr || faults.expire then Outcome(m, FailOpen(config, now))
    else
      var usage := CountAt(m, key, now) + 1;
      var m1 := AfterExpireIfUnset(Incremented(m, key, now), key, config.window, now);
      if faults.ttl then Outcome(m1, FailOpen(config, now))
      else Outcome(m1, Admission(usage, config.limit, TimeToLive(m1, key, now), now))
  }

  /** The corrected rateLimit on the shared store. */
  method RateLimitRepaired(redis: Store, config: RateLimitConfig, now: int, faults: Faults) returns (result: RateLimitResult)
    modifies redis
    ensures result == CheckRepaired(old(redis.entries), config, now, faults).result
    ensures redis.entries == CheckRepaired(old(redis.entries), config, now, faults).entries
  {
    var key := KeyFor(config.uniqueToken);
    var currentUsage := redis.IncrExpireIfUnset(key, config.window, now, faults.incr || faults.expire);
    if currentUsage.Failed? {
      return FailOpen(config, now);
    }
    var ttl := redis.Ttl(key, now, faults.ttl);
    if ttl.Failed? {
      return FailOpen(config, now);
    }
    result := Admission(currentUsage.value, config.limit, ttl.value, now);
  }

  /** The key holds no counter without an expiry. */
  ghost predicate NotStranded(m: map<string, Entry>, key: string) {
    key in m ==> m[key].expiresAt.Some?
  }

  /** No counter is ever stranded: if the token's key holds no entry without
      an expiry before a corrected call, it holds none after it, whichever of
      the call's commands fail. */
  lemma RepairedNeverStrands(m: map<string, Entry>, config: RateLimitConfig, now: int, faults: Faults)
    requires NotStranded(m, KeyFor(config.uniqueToken))
    ensures NotStranded(CheckRepaired(m, config, now, faults).entries, KeyFor(config.uniqueToken))
  {
  }

  /** Whatever state an earlier failure left behind, a corrected call whose
      transaction succeeds leaves the token's counter live with an expiry: the
      one it already had or, if it had none, `window` seconds from now. */
  lemma RepairedCounterAlwaysExpires(m: map<string, Entry>, config: RateLimitConfig, now: int, faults: Faults)
    requires config.window > 0 && !faults.incr && !faults.expire
    ensures var key := KeyFor(config.uniqueToken);
            var o := CheckRepaired(m, config, now, faults);
            Get(o.entries, key, now).Some? && o.entries[key].expiresAt.Some? &&
            o.entries[key].expiresAt ==
              (if Get(m, key, now).Some? && m[key].expiresAt.Some? then m[key].expiresAt
               else Some(now + config.window * 1000))
  {
  }

  /** The stranded-counter input, run through the corrected limiter: the failed
      first call changes nothing, so the call a day later opens a fresh window
      at count 1 and is admitted. */
  lemma RepairedExample()
    ensures var config := RateLimitConfig("user-1", 1, 60);
            var o := CheckRepaired(map[], config, 0, Faults(false, true, false));
            var later := CheckRepaired(o.entries, config, 86_400_000, Healthy);
            o.entries == map[] && o.result.success &&
            later.entries[KeyFor("user-1")] == Entry(1, Some(86_400_000 + 60_000)) && later.result.success
  {
  }

  /** When no command of the transaction fails, on a counter that is absent or
      was created by INCR and already has an expiry, the corrected limiter
      behaves exactly as written; so on the keyspaces a fault-free history
      produces, the quota lemmas above hold for it too. */
  lemma RepairedAgreesWithOriginal(m: map<string, Entry>, config: RateLimitConfig, now: int, faults: Faults)
    requires var key := KeyFor(config.uniqueToken);
             Get(m, key, now).None? || (m[key].count >= 1 && m[key].expiresAt.Some?)
    requires !faults.expire || faults.incr
    ensures CheckRepaired(m, config, now, faults) == Check(m, config, now, faults)
  {
  }

  /** Successive healthy calls of the corrected limiter. */
  function ReplayRepaired(m: map<string, Entry>, config: RateLimitConfig, times: seq<int>): (tr: Trace)
    ensures |tr.results| == |times|
    decreases |times|
  {
    if times == [] then Trace(m, [])
    else
      var first := CheckRepaired(m, config, times[0], Healthy);
      var rest := ReplayRepaired(first.entries, config, times[1..]);
      Trace(rest.entries, [first.result] + rest.results)
  }

  /** On a keyspace where the token's counter, if any, was created by INCR and
      has an expiry, any run of healthy calls of the corrected limiter returns
      and leaves exactly what the original does; so the quota lemmas proved
      about `Replay` hold for the corrected limiter too. */
  lemma {:induction false} ReplayAgrees(m: map<string, Entry>, config: RateLimitConfig, times: seq<int>)
    requires var key := KeyFor(config.uniqueToken);
             key in m ==> m[key].count >= 1 && m[key].expiresAt.Some?
    ensures ReplayRepaired(m, config, times) == Replay(m, config, times)
    decreases |times|
  {
    if times != [] {
      RepairedAgreesWithOriginal(m, config, times[0], Healthy);
      var first := Check(m, config, times[0], Healthy);
      ReplayAgrees(first.entries, config, times[1..]);
    }
  }

  // ---------------------------------------------------------------------------
  // Reconnect back-off

  /** ioredis's retryStrategy: the delay in milliseconds before reconnect
      attempt `times`, or None to stop reconnecting. */
  function RetryStrategy(times: int): (delay: Option<int>)
    ensures delay.None? <==> times > 3
    ensures delay.Some? ==> delay.value <= 2000 && delay.value <= 50 * times
  {
    if times > 3 then None else Some(Min(times * 50, 2000))
  }

  /** The client reconnects at most three times, after 50, 100 and 150 ms, and
      then gives up: the 2000 ms cap is never what bounds a delay. */
  lemma ReconnectSchedule()
    ensures [RetryStrategy(1), RetryStrategy(2), RetryStrategy(3), RetryStrategy(4)]
            == [Some(50), Some(100), Some(150), None]
    ensures forall times :: RetryStrategy(times).Some? ==> RetryStrategy(times).value <= 150
  {
  }
}
