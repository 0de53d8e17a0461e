/**
  An abstract model of the Redis server behind the rate limiter: a map from
  string keys to integer counters, each with an optional absolute expiry time,
  and the three commands the limiter issues (INCR, EXPIRE, TTL), plus
  EXPIRE ... NX sent together with INCR in one transaction by the corrected
  limiter.

  Time is an integer number of milliseconds on one clock shared by the
  application and the server. A key whose expiry time has passed behaves as if
  it were absent, which is what Redis's lazy and active expiry guarantee to
  clients; the stale entry may still sit in the map.
*/
module RedisStore {
  import opened Wrappers

  /** A counter and its absolute expiry time in milliseconds (None: no expiry). */
  datatype Entry = Entry(count: int, expiresAt: Option<int>)

  /** The reply to one command: its value, or a failure (connection refused,
      timeout, protocol error) that the client raises as an exception. */
  datatype Reply<T> = Ok(value: T) | Failed

  /** Redis considers a key expired once the clock is strictly past its expiry. */
  predicate Alive(e: Entry, now: int) {
    e.expiresAt.None? || now <= e.expiresAt.value
  }

  /** The entry a client sees under `key` at time `now`. */
  function Get(m: map<string, Entry>, key: string, now: int): (r: Option<Entry>) {
    if key in m && Alive(m[key], now) then Some(m[key]) else None
  }

  /** The counter's value as INCR sees it: an absent key counts as 0. */
  function CountAt(m: map<string, Entry>, key: string, now: int): (n: int) {
    match Get(m, key, now)
    case None => 0
    case Some(e) => e.count
  }

  /** Every key other than `key` has the same entry (or absence) in both maps. */
  ghost predicate SameExcept(m: map<string, Entry>, m': map<string, Entry>, key: string) {
    forall k :: k != key ==> (k in m <==> k in m') && (k in m ==> m[k] == m'[k])
  }

  /** INCR key: the store afterwards. An absent key is created at 0 without an
      expiry and then incremented; a live key keeps its expiry. */
  function Incremented(m: map<string, Entry>, key: string, now: int): (m': map<string, Entry>)
    ensures SameExcept(m, m', key)
    ensures Get(m', key, now).Some? && CountAt(m', key, now) == CountAt(m, key, now) + 1
    ensures m'[key].expiresAt == if Get(m, key, now).Some? then m[key].expiresAt else None
  {
    match Get(m, key, now)
    case None => m[key := Entry(1, None)]
    case Some(e) => m[key := Entry(e.count + 1, e.expiresAt)]
  }

  /** EXPIRE key seconds: the store afterwards. An absent key is left alone; a
      non-positive timeout deletes the key; otherwise the expiry becomes
      `seconds` from now, replacing any earlier one. */
  function AfterExpire(m: map<string, Entry>, key: string, seconds: int, now: int): (m': map<string, Entry>)
    ensures SameExcept(m, m', key)
    ensures Get(m, key, now).None? ==> m' == m
    ensures Get(m, key, now).Some? && seconds <= 0 ==> Get(m', key, now).None?
    ensures Get(m, key, now).Some? && seconds > 0 ==>
              Get(m', key, now) == Some(Entry(m[key].count, Some(now + seconds * 1000)))
  {
    match Get(m, key, now)
    case None => m
    case Some(e) =>
      if seconds <= 0 then m - {key}
      else m[key := Entry(e.count, Some(now + seconds * 1000))]
  }

  /** EXPIRE key seconds NX (Redis 7): the same as EXPIRE, but only for a live
      key that has no expiry yet; otherwise nothing changes. */
  function AfterExpireIfUnset(m: map<string, Entry>, key: string, seconds: int, now: int): (m': map<string, Entry>)
    ensures SameExcept(m, m', key)
    ensures Get(m, key, now).None? || m[key].expiresAt.Some? ==> m' == m
    ensures Get(m, key, now).Some? && m[key].expiresAt.None? ==> m' == AfterExpire(m, key, seconds, now)
  {
    if Get(m, key, now).Some? && m[key].expiresAt.None? then AfterExpire(m, key, seconds, now) else m
  }

  /** TTL key: -2 for an absent key, -1 for a key without expiry, otherwise the
      remaining time rounded to the nearest second. */
  function TimeToLive(m: map<string, Entry>, key: string, now: int): (t: int)
    ensures t == -2 <==> Get(m, key, now).None?
    ensures t == -1 <==> Get(m, key, now).Some? && m[key].expiresAt.None?
    ensures t >= 0 <==> Get(m, key, now).Some? && m[key].expiresAt.Some?
    ensures t >= 0 ==> 1000 * t - 500 <= m[key].expiresAt.value - now < 1000 * t + 500
  {
    match Get(m, key, now)
    case None => -2
    case Some(e) =>
      match e.expiresAt
      case None => -1
      case Some(at) => (at - now + 500) / 1000
  }

  /** The server: its keyspace, changed in place by each command. A command
      whose `fault` flag is set fails before reaching the keyspace. */
  class Store {
    var entries: map<string, Entry>

    constructor ()
      ensures entries == map[]
    {
      entries := map[];
    }

    /** INCR key: the post-increment value. */
    method Incr(key: string, now: int, fault: bool) returns (r: Reply<int>)
      modifies this
      ensures fault ==> r == Failed && entries == old(entries)
      ensures !fault ==> r == Ok(CountAt(old(entries), key, now) + 1)
      ensures !fault ==> entries == Incremented(old(entries), key, now)
    {
      if fault {
        return Failed;
      }
      var n := CountAt(entries, key, now) + 1;
      entries := Incremented(entries, key, now);
      r := Ok(n);
    }

    /** EXPIRE key seconds: whether the key existed. */
    method Expire(key: string, seconds: int, now: int, fault: bool) returns (r: Reply<bool>)
      modifies this
      ensures fault ==> r == Failed && entries == old(entries)
      ensures !fault ==> r == Ok(Get(old(entries), key, now).Some?)
      ensures !fault ==> entries == AfterExpire(old(entries), key, seconds, now)
    {
      if fault {
        return Failed;
      }
      r := Ok(Get(entries, key, now).Some?);
      entries := AfterExpire(entries, key, seconds, now);
    }

    /** MULTI; INCR key; EXPIRE key seconds NX; EXEC: both commands applied
        together, or (when the transaction fails to reach the server) neither.
        Replies with the post-increment value. */
    method IncrExpireIfUnset(key: string, seconds: int, now: int, fault: bool) returns (r: Reply<int>)
      modifies this
      ensures fault ==> r == Failed && entries == old(entries)
      ensures !fault ==> r == Ok(CountAt(old(entries), key, now) + 1)
      ensures !fault ==> entries == AfterExpireIfUnset(Incremented(old(entries), key, now), key, seconds, now)
    {
      if fault {
        return Failed;
      }
      var n := CountAt(entries, key, now) + 1;
      entries := AfterExpireIfUnset(Incremented(entries, key, now), key, seconds, now);
      r := Ok(n);
    }

    /** TTL key: the remaining time to live in seconds, or -1 / -2. */
    method Ttl(key: string, now: int, fault: bool) returns (r: Reply<int>)
      ensures fault ==> r == Failed
      ensures !fault ==> r == Ok(TimeToLive(entries, key, now))
    {
      if fault {
        return Failed;
      }
      r := Ok(TimeToLive(entries, key, now));
    }
  }
}
